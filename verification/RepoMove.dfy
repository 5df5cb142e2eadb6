/**
 The move of a working repository's artifacts, as it runs: the walk over `.lfbridge/`, file by file, and the
 pruning of what it leaves empty. The existence test of a blind destination fails, and reads as absent: always in a
 run without faults, at times in a run with `faults` set, in which any other operation may fail as well and a copy to
 another volume may break off and leave any file there, or none.
 */
module RepoMove {
  import opened Wrappers
  import opened Bytes
  import opened FileTree
  import opened RepoSync
  import opened RepoPrune
  import opened Seqs

  /** What became of the artifacts met so far. */
  datatype Tally = Tally(moved: nat, deduped: nat, replaced: nat, keptDest: nat, failed: nat) {
    function Total(): nat {
      moved + deduped + replaced + keptDest + failed
    }
  }

  const NOTHING := Tally(0, 0, 0, 0, 0)

  /** The artifacts still where they were. */
  function Staying(c: Places, d: Disk, rs: set<Path>): set<Path> {
    set r | r in rs && c.from + r in d.fs
  }

  lemma {:induction false} StayingTogether(c: Places, fs: Tree, b: Disk, d: Disk, first: set<Path>, more: set<Path>,
                                           slips: Slips)
    requires c.Valid() && AreArtifacts(c, fs, first + more) && first !! more
    requires Handled(c, b, d, more, slips)
    ensures |Staying(c, d, first + more)| == |Staying(c, b, first)| + |Staying(c, d, more)|
  {
    forall r | r in first
      ensures c.from + r in d.fs <==> c.from + r in b.fs
    {
      StillThere(c, fs, b, d, more, slips, r);
    }
    StayingAdds(c, b, d, first, more);
  }

  lemma {:induction false} StillThere(c: Places, fs: Tree, b: Disk, d: Disk, more: set<Path>, slips: Slips, r: Path)
    requires c.Valid() && AreArtifacts(c, fs, more + {r}) && r !in more
    requires Handled(c, b, d, more, slips)
    ensures c.from + r in d.fs <==> c.from + r in b.fs
  {
    OthersAreLeft(c, fs, b, d, more, slips, r);
  }

  lemma {:induction false} StayingAdds(c: Places, b: Disk, d: Disk, first: set<Path>, more: set<Path>)
    requires first !! more
    requires forall r :: r in first ==> (c.from + r in d.fs <==> c.from + r in b.fs)
    ensures |Staying(c, d, first + more)| == |Staying(c, b, first)| + |Staying(c, d, more)|
  {
    assert Staying(c, d, first + more) == Staying(c, b, first) + Staying(c, d, more);
  }

  lemma {:induction false} DirsHandled(c: Places, d: Disk, r: Path, made: Path)
    requires c.Valid() && WellFormed(d.fs) && IsArtifactAt(c, d.fs, r)
    requires made <= Parent(c.to + r) && Passable(d.fs, made)
    ensures var d' := d.(fs := WithDirs(d.fs, made));
            && WellFormed(d'.fs) && Handled(c, d, d', {r}, NO_SLIPS) && IsArtifactAt(c, d'.fs, r)
            && d'.Look(c.from + r) == d.Look(c.from + r) && d'.Look(c.to + r) == d.Look(c.to + r)
            && IsDir(d'.fs, made)
  {
    DirsAreWellFormed(d.fs, made);
    assert made[..|made|] == made;
    var d' := d.(fs := WithDirs(d.fs, made));
    forall p | p in d'.fs && p !in d.fs
      ensures OnTheWay(c, {r}, p)
    {
      assert p <= made <= Parent(c.to + r) <= c.to + r;
    }
  }

  /** The artifact put at its destination: over an older file, or over one that a failing look-up has hidden. */
  lemma {:induction false} MovedOver(c: Places, d: Disk, r: Path, slips: Slips)
    requires c.Valid() && WellFormed(d.fs) && IsArtifactAt(c, d.fs, r)
    requires if slips == NO_SLIPS then Wins(c, d, r)
             else slips == Slips({r}, {}) && IsFile(d.fs, c.to + r) && c.to + r in c.blind
    requires IsDir(d.fs, Parent(c.to + r))
    ensures var s, t := c.from + r, c.to + r;
            var d' := Disk(RenamedOver(d.fs, s, t), d.times[t := d.Time(s)]);
            WellFormed(d'.fs) && Handled(c, d, d', {r}, slips) && d'.Look(s).None?
  {
    var s, t := c.from + r, c.to + r;
    SidesApart(c, r, t);
    NothingBelow(d.fs, s);
    RemoveIsWellFormed(d.fs, s);
    PutIsWellFormed(d.fs - {s}, t, d.fs[s]);
  }

  /** A copy of the artifact that broke off and left a file. */
  lemma {:induction false} TornIs(c: Places, d: Disk, r: Path, bytes: seq<byte>, time: int)
    requires c.Valid() && WellFormed(d.fs) && IsArtifactAt(c, d.fs, r)
    requires IsDir(d.fs, Parent(c.to + r)) && !IsDir(d.fs, c.to + r) && (Wins(c, d, r) || c.to + r in c.blind)
    ensures var t := c.to + r;
            var d' := Disk(d.fs[t := File(bytes)], d.times[t := time]);
            WellFormed(d'.fs) && Handled(c, d, d', {r}, Slips({}, {r})) && d'.Look(c.from + r).Some?
  {
    SidesApart(c, r, c.to + r);
    PutIsWellFormed(d.fs, c.to + r, File(bytes));
  }

  /** A copy that broke off and left nothing. */
  lemma {:induction false} TornAway(c: Places, d: Disk, r: Path)
    requires c.Valid() && WellFormed(d.fs) && IsArtifactAt(c, d.fs, r)
    requires !IsDir(d.fs, c.to + r) && (Wins(c, d, r) || c.to + r in c.blind)
    ensures var d' := d.(fs := d.fs - {c.to + r});
            WellFormed(d'.fs) && Handled(c, d, d', {r}, Slips({}, {r})) && d'.Look(c.from + r).Some?
  {
    SidesApart(c, r, c.to + r);
    NothingBelow(d.fs, c.to + r);
    RemoveIsWellFormed(d.fs, c.to + r);
  }

  lemma {:induction false} DroppedIs(c: Places, d: Disk, r: Path)
    requires c.Valid() && WellFormed(d.fs) && IsArtifactAt(c, d.fs, r) && !Wins(c, d, r)
    requires IsDir(d.fs, c.to + r) ==> Droppable(c, d.fs, r)
    ensures var d' := d.(fs := d.fs - {c.from + r});
            WellFormed(d'.fs) && Handled(c, d, d', {r}, NO_SLIPS) && d'.Look(c.from + r).None?
  {
    SidesApart(c, r, c.to + r);
    NothingBelow(d.fs, c.from + r);
    RemoveIsWellFormed(d.fs, c.from + r);
  }

  lemma {:induction false} HandledUntouched(c: Places, d: Disk, r: Path)
    ensures Handled(c, d, d, {r}, NO_SLIPS)
  {
  }

  /** Making directories first changes nothing of what handling one artifact means. */
  lemma {:induction false} HandledAgain(c: Places, a: Disk, b: Disk, d: Disk, r: Path, slips: Slips)
    requires Handled(c, a, b, {r}, NO_SLIPS) && Handled(c, b, d, {r}, slips)
    requires b.Look(c.from + r) == a.Look(c.from + r) && b.Look(c.to + r) == a.Look(c.to + r)
    ensures Handled(c, a, d, {r}, slips)
  {
    assert Fate(c, b, d, slips, r);
    forall p | !Concerns(c, {r}, p)
      ensures p != c.from + r && p != c.to + r
    {
    }
  }

  lemma {:induction false} HandledWithin(c: Places, a: Disk, b: Disk, rs: set<Path>, all: set<Path>, slips: Slips)
    requires c.Valid() && AreArtifacts(c, a.fs, all) && rs <= all
    requires Handled(c, a, b, rs, slips)
    ensures Handled(c, a, b, all, slips)
  {
    forall r | r in all
      ensures Fate(c, a, b, slips, r)
    {
      if r !in rs {
        OthersAreLeft(c, a.fs, a, b, rs, slips, r);
      }
    }
    forall p | !Concerns(c, all, p)
      ensures !Concerns(c, rs, p)
    {
      NarrowConcern(c, rs, all, p);
    }
  }

  lemma {:induction false} AtFirst(c: Places, d: Disk, rel: Path)
    ensures Handled(c, d, d, Artifacts(c, d.fs, rel), NO_SLIPS)
  {
  }

  /** With some entries of a directory walked, the next one has the artifacts it had. */
  lemma {:induction false} EnteredArtifacts(c: Places, a: Disk, b: Disk, rel: Path, seen: set<string>, n: string,
                                            slips: Slips)
    requires c.Valid() && WellFormed(a.fs) && n !in seen
    requires Handled(c, a, b, InEntries(c, a.fs, rel, seen), slips)
    ensures Artifacts(c, b.fs, rel + [n]) == Artifacts(c, a.fs, rel + [n])
    ensures c.from + rel + [n] in a.fs <==> c.from + rel + [n] in b.fs
    ensures InEntries(c, a.fs, rel, seen + {n}) == InEntries(c, a.fs, rel, seen) + Artifacts(c, a.fs, rel + [n])
    ensures InEntries(c, a.fs, rel, seen) !! Artifacts(c, a.fs, rel + [n])
    ensures AreArtifacts(c, a.fs, InEntries(c, a.fs, rel, seen) + Artifacts(c, a.fs, rel + [n]))
  {
    OneMoreEntry(c, a.fs, rel, seen, n);
    EntryStays(c, a, b, InEntries(c, a.fs, rel, seen), slips, rel + [n]);
    assert c.from + (rel + [n]) == c.from + rel + [n];
  }

  lemma {:induction false} BoundStays(c: Places, a: Disk, b: Disk, rs: set<Path>, slips: Slips, depth: nat)
    requires c.Valid() && Handled(c, a, b, rs, slips)
    requires Bounded(a.fs, c.from, depth)
    ensures Bounded(b.fs, c.from, depth)
  {
    forall p | p in b.fs && c.from <= p
      ensures |p| <= depth
    {
      SourceSide(c, a, b, rs, slips, p);
    }
  }

  // ---- the whole run -------------------------------------------------------------------------------------

  /** What a run does to each file, whatever fails. */
  ghost predicate Migrated(c: Places, before: Disk, after: Disk, slips: Slips) {
    var all := Artifacts(c, before.fs, []);
    && (forall r :: r in all ==> Fate(c, before, after, slips, r))
    && (forall p :: p in before.fs && !(c.from <= p) && !Concerns(c, all, p) ==> after.Look(p) == before.Look(p))
    && (forall p :: IsFile(before.fs, p) && c.from <= p && !IsDsStore(p) && !Concerns(c, all, p) ==>
          after.Look(p) == before.Look(p))
    && (forall p :: p in before.fs && p in after.fs && !Concerns(c, all, p) ==> after.fs[p] == before.fs[p])
    && (forall p :: p in after.fs && p !in before.fs ==> OnTheWay(c, all, p))
  }

  /** Every artifact is counted once, and those that stay as failures. */
  ghost predicate Counts(c: Places, before: Disk, after: Disk, tally: Tally) {
    var all := Artifacts(c, before.fs, []);
    tally.Total() == |all| && tally.failed == |Staying(c, after, all)|
  }

  lemma {:induction false} SourceIsKept(mid: Disk, after: Disk, dir: Path, s: Path)
    requires Pruned(mid, after, dir)
    requires s != [] && IsArtifact(s[|s| - 1]) && (s in mid.fs ==> mid.fs[s].File?)
    ensures after.Look(s) == mid.Look(s)
  {
    NoArtifact();
  }

  lemma {:induction false} OutsideIsKept(mid: Disk, after: Disk, dir: Path, t: Path)
    requires Pruned(mid, after, dir) && !(dir <= t)
    ensures after.Look(t) == mid.Look(t)
  {
  }

  lemma {:induction false} ArtifactIsKept(c: Places, before: Disk, mid: Disk, after: Disk, rs: set<Path>,
                                          slips: Slips, r: Path)
    requires c.Valid() && Handled(c, before, mid, rs, slips) && Pruned(mid, after, c.from)
    requires IsArtifactAt(c, before.fs, r)
    ensures after.Look(c.from + r) == mid.Look(c.from + r)
  {
    var s := c.from + r;
    assert s[|s| - 1] == r[|r| - 1];
    SourceSide(c, before, mid, rs, slips, s);
    SourceIsKept(mid, after, c.from, s);
  }

  lemma {:induction false} ArtifactsAreKept(c: Places, before: Disk, mid: Disk, after: Disk, rs: set<Path>,
                                            slips: Slips, r: Path)
    requires c.Valid() && Handled(c, before, mid, rs, slips) && Pruned(mid, after, c.from)
    requires IsArtifactAt(c, before.fs, r)
    ensures after.Look(c.from + r) == mid.Look(c.from + r)
    ensures after.Look(c.to + r) == mid.Look(c.to + r)
  {
    ArtifactIsKept(c, before, mid, after, rs, slips, r);
    SidesApart(c, r, c.to + r);
    OutsideIsKept(mid, after, c.from, c.to + r);
  }

  lemma {:induction false} NoArtifact()
    ensures !IsArtifact(DS_STORE)
  {
    LastDiffers(DS_STORE, ".transcription");
    LastDiffers(DS_STORE, ".ai_description");
    LastDiffers(DS_STORE, ".ai_description_rejected");
    LastDiffers(DS_STORE, ".ocr");
  }

  lemma {:induction false} LastDiffers(s: string, suffix: string)
    requires |s| > 0 && |suffix| > 0 && s[|s| - 1] != suffix[|suffix| - 1]
    ensures !HasSuffix(s, suffix)
  {
    if |suffix| <= |s| {
      assert s[|s| - |suffix|..][|suffix| - 1] == s[|s| - 1];
    }
  }

  lemma {:induction false} PrunedIsMigrated(c: Places, before: Disk, mid: Disk, after: Disk, slips: Slips)
    requires c.Valid() && Handled(c, before, mid, Artifacts(c, before.fs, []), slips) && Pruned(mid, after, c.from)
    ensures Migrated(c, before, after, slips)
    ensures Staying(c, after, Artifacts(c, before.fs, [])) == Staying(c, mid, Artifacts(c, before.fs, []))
  {
    var all := Artifacts(c, before.fs, []);
    forall r | r in all
      ensures Fate(c, before, after, slips, r)
      ensures c.from + r in after.fs <==> c.from + r in mid.fs
    {
      ArtifactsAreKept(c, before, mid, after, Artifacts(c, before.fs, []), slips, r);
      assert Fate(c, before, mid, slips, r);
    }
  }

  lemma {:induction false} HandledIsMigrated(c: Places, before: Disk, mid: Disk, slips: Slips)
    requires c.Valid() && Handled(c, before, mid, Artifacts(c, before.fs, []), slips)
    ensures Migrated(c, before, mid, slips)
  {
    PrunedIsMigrated(c, before, mid, mid, slips);
  }

  lemma {:induction false} UntouchedIsMigrated(c: Places, d: Disk)
    requires c.Valid()
    ensures Migrated(c, d, d, NO_SLIPS)
  {
    AtFirst(c, d, []);
    HandledIsMigrated(c, d, d, NO_SLIPS);
  }

  lemma {:induction false} SourceDirStays(c: Places, before: Disk, mid: Disk, rs: set<Path>, slips: Slips)
    requires c.Valid() && IsDir(before.fs, c.from) && Handled(c, before, mid, rs, slips)
    requires [] !in rs
    ensures IsDir(mid.fs, c.from)
  {
    SourceSide(c, before, mid, rs, slips, c.from);
    assert c.from[|c.from|..] == [];
  }

  /**
   A copy to another volume that broke off in one run, and a later run that gets to the artifact: what it held is at
   the destination in the end exactly when the copy left nothing, held all its bytes or looks older than the artifact.
   */
  lemma {:induction false} TornCopyAcrossRuns(c: Places, a: Disk, b: Disk, d: Disk, x: Slips, y: Slips, r: Path)
    requires Migrated(c, a, b, x) && Migrated(c, b, d, y)
    requires r in Artifacts(c, a.fs, []) && r in x.torn && r !in y.over && r !in y.torn && c.from + r !in d.fs
    ensures Holds(d.fs, c.to + r, a.fs[c.from + r]) <==>
            || c.to + r !in b.fs
            || Holds(b.fs, c.to + r, a.fs[c.from + r]) || b.Time(c.to + r) < a.Time(c.from + r)
  {
    var s := c.from + r;
    assert Fate(c, a, b, x, r);
    assert b.Look(s) == a.Look(s) && b.Look(s).Some?;
    assert r in Artifacts(c, b.fs, []);
    TornCopyIsTakenForAVersion(c, a, b, d, x, y, r);
  }

  class RepoMigration {
    const c: Places
    const faults: bool
    var disk: Disk
    var tally: Tally

    ghost predicate Valid()
      reads this
    {
      c.Valid() && WellFormed(disk.fs)
    }

    constructor (c: Places, faults: bool, disk: Disk)
      requires c.Valid() && WellFormed(disk.fs)
      ensures Valid() && this.c == c && this.faults == faults && this.disk == disk
    {
      this.c, this.faults, this.disk, this.tally := c, faults, disk, NOTHING;
    }

    method Fails() returns (f: bool)
      ensures f ==> faults
    {
      var b: bool := *;
      return faults && b;
    }

    // ---- one file ------------------------------------------------------------------------------------

    /** Is anything at `p`? A failed look-up says no. */
    method Exists(p: Path) returns (there: bool)
      ensures there ==> p in disk.fs
      ensures !there ==> p !in disk.fs || p in c.blind
      ensures !faults ==> (there <==> p in disk.fs && p !in c.blind)
    {
      var f := Fails();
      return p in disk.fs && (p !in c.blind || (faults && !f));
    }

    /** Make the directories for the destination. */
    method MakeDirsFor(r: Path) returns (ok: bool)
      requires Valid() && IsArtifactAt(c, disk.fs, r)
      modifies this`disk
      ensures Valid() && Handled(c, old(disk), disk, {r}, NO_SLIPS) && IsArtifactAt(c, disk.fs, r)
      ensures disk.Look(c.from + r) == old(disk).Look(c.from + r) && disk.Look(c.to + r) == old(disk).Look(c.to + r)
      ensures disk.times == old(disk).times
      ensures ok ==> IsDir(disk.fs, Parent(c.to + r))
      ensures !faults && ClearAt(c, old(disk).fs, r) ==> ok
    {
      var s, t := c.from + r, c.to + r;
      var up := Parent(t);
      assert s[..0] == [] && up[..0] == [];
      var f := Fails();
      assert forall k :: 0 <= k <= |up| ==> up[..k] == t[..k];
      ok := !f && Passable(disk.fs, up);
      var made := up;
      if !ok {
        var k: int := *;
        made := if 0 <= k <= |up| && Passable(disk.fs, up[..k]) then up[..k] else [];
      }
      DirsHandled(c, disk, r, made);
      disk := disk.(fs := WithDirs(disk.fs, made));
    }

    /**
     Rename over whatever file is at the destination, or copy to it when that is on another volume. With `hidden`
     set a failed look-up is why.
     */
    method MoveFile(r: Path, ghost hidden: bool) returns (ok: bool, ghost slips: Slips)
      requires Valid() && IsArtifactAt(c, disk.fs, r)
      requires if hidden then c.to + r in c.blind else IsDir(disk.fs, c.to + r) || Wins(c, disk, r)
      modifies this`disk
      ensures Valid() && Handled(c, old(disk), disk, {r}, slips)
      ensures ok <==> disk.Look(c.from + r).None?
      ensures !faults ==> slips == if hidden && IsFile(old(disk).fs, c.to + r) then Slips({r}, {}) else NO_SLIPS
      ensures IsDir(old(disk).fs, c.to + r) ==> !ok
      ensures !faults && ClearAt(c, old(disk).fs, r) ==> ok
    {
      var s, t := c.from + r, c.to + r;
      slips := NO_SLIPS;
      ghost var before := disk;
      if IsFile(before.fs, t) {
        FileIsClear(c, before.fs, r);
      }
      var made := MakeDirsFor(r);
      var f := Fails();
      if !made || f || IsDir(disk.fs, t) {
        return false, slips;
      }
      ghost var mid := disk;
      var otherVolume: bool := *;
      if otherVolume {
        f := Fails();
        if f {
          BreakOff(r);
          slips := Slips({}, {r});
          HandledAgain(c, before, mid, disk, r, slips);
          return false, slips;
        }
      }
      slips := if hidden && t in disk.fs then Slips({r}, {}) else NO_SLIPS;
      MovedOver(c, disk, r, slips);
      disk := Disk(RenamedOver(disk.fs, s, t), disk.times[t := disk.Time(s)]);
      HandledAgain(c, before, mid, disk, r, slips);
      return true, slips;
    }

    /** A copy to another volume that fails: it leaves any file, with any time, or none. */
    method BreakOff(r: Path)
      requires Valid() && IsArtifactAt(c, disk.fs, r)
      requires IsDir(disk.fs, Parent(c.to + r)) && !IsDir(disk.fs, c.to + r)
      requires Wins(c, disk, r) || c.to + r in c.blind
      modifies this`disk
      ensures Valid() && Handled(c, old(disk), disk, {r}, Slips({}, {r})) && disk.Look(c.from + r).Some?
    {
      var t := c.to + r;
      var left: bool := *;
      if left {
        var bytes: seq<byte> := *;
        var time: int := *;
        TornIs(c, disk, r, bytes, time);
        disk := Disk(disk.fs[t := File(bytes)], disk.times[t := time]);
      } else {
        TornAway(c, disk, r);
        disk := disk.(fs := disk.fs - {t});
      }
    }

    /** Remove the copy in `.lfbridge/`. */
    method Unlink(r: Path) returns (ok: bool)
      requires Valid() && IsArtifactAt(c, disk.fs, r) && !Wins(c, disk, r)
      requires IsDir(disk.fs, c.to + r) ==> Droppable(c, disk.fs, r)
      modifies this`disk
      ensures Valid() && Handled(c, old(disk), disk, {r}, NO_SLIPS)
      ensures ok <==> disk.Look(c.from + r).None?
      ensures !faults ==> ok
    {
      var f := Fails();
      if f {
        return false;
      }
      DroppedIs(c, disk, r);
      disk := disk.(fs := disk.fs - {c.from + r});
      return true;
    }

    /** Compare two files; reading a directory of the same size throws. */
    method SameBytes(s: Path, t: Path) returns (same: Option<bool>)
      requires IsFile(disk.fs, s) && t in disk.fs
      ensures same.Some? ==> (same.value <==> disk.fs[t] == disk.fs[s])
      ensures IsDir(disk.fs, t) ==> (same.Some? ==> !c.sameSize(t))
      ensures !faults ==> (same.None? <==> IsDir(disk.fs, t) && c.sameSize(t))
    {
      var f := Fails();
      if f || (IsDir(disk.fs, t) && c.sameSize(t)) {
        return None;
      }
      return Some(disk.fs[t] == disk.fs[s]);
    }

    method IsNewer(s: Path, t: Path) returns (newer: bool)
      requires IsFile(disk.fs, s) && t in disk.fs
      ensures newer <==> if IsDir(disk.fs, t) then c.newer(t) else disk.Time(s) > disk.Time(t)
    {
      return if IsDir(disk.fs, t) then c.newer(t) else disk.Time(s) > disk.Time(t);
    }

    /** The time at the destination is older, or for a directory is said to be. */
    ghost predicate Older(d: Disk, r: Path) {
      if IsDir(d.fs, c.to + r) then c.newer(c.to + r) else d.Time(c.to + r) < d.Time(c.from + r)
    }

    /**
     The counter that goes up: `moved` for an artifact with nothing at its destination, as far as could be seen;
     `deduped` for the same bytes there; `replaced` for other bytes that are older; `keptDest` for others that are
     not; and `failed` for an artifact that is still where it was.
     */
    ghost predicate OneCounter(a: Disk, b: Disk, was: Tally, now: Tally, r: Path) {
      var s, t := c.from + r, c.to + r;
      var seen := t in a.fs && (!faults ==> t !in c.blind);
      || (now == was.(failed := was.failed + 1) && s in b.fs)
      || (now == was.(moved := was.moved + 1) && s !in b.fs && (t !in a.fs || t in c.blind))
      || (now == was.(deduped := was.deduped + 1) && s !in b.fs && seen && s in a.fs && a.fs[t] == a.fs[s])
      || (now == was.(replaced := was.replaced + 1) && s !in b.fs && seen && s in a.fs && a.fs[t] != a.fs[s]
          && Older(a, r))
      || (now == was.(keptDest := was.keptDest + 1) && s !in b.fs && seen && s in a.fs && a.fs[t] != a.fs[s]
          && !Older(a, r))
    }

    /** Take one artifact to its destination, or drop it there for a version at least as new. */
    method TakeFile(r: Path) returns (ghost slips: Slips)
      requires Valid() && IsArtifactAt(c, disk.fs, r)
      modifies this
      ensures Valid() && Handled(c, old(disk), disk, {r}, slips)
      ensures !faults ==> slips == Unseen(c, old(disk).fs, {r})
      ensures tally.Total() == old(tally).Total() + 1
      ensures tally.failed == old(tally).failed + if c.from + r in disk.fs then 1 else 0
      ensures !faults ==> Done(c, old(disk), disk, r)
      ensures OneCounter(old(disk), disk, old(tally), tally, r)
    {
      var s, t := c.from + r, c.to + r;
      HandledUntouched(c, disk, r);
      slips := NO_SLIPS;
      var ok: bool;
      var there := Exists(t);
      if !there {
        ok, slips := MoveFile(r, t in disk.fs);
        tally := if ok then tally.(moved := tally.moved + 1) else tally.(failed := tally.failed + 1);
        return;
      }
      var same := SameBytes(s, t);
      if same.None? {
        tally := tally.(failed := tally.failed + 1);
        return;
      }
      if same.value {
        ok := Unlink(r);
        tally := if ok then tally.(deduped := tally.deduped + 1) else tally.(failed := tally.failed + 1);
        return;
      }
      var newer := IsNewer(s, t);
      if newer {
        ok, slips := MoveFile(r, false);
        tally := if ok then tally.(replaced := tally.replaced + 1) else tally.(failed := tally.failed + 1);
      } else {
        ok := Unlink(r);
        tally := if ok then tally.(keptDest := tally.keptDest + 1) else tally.(failed := tally.failed + 1);
      }
    }

    // ---- the walk ------------------------------------------------------------------------------------

    /** Where a walk stands once it has handled these artifacts. */
    ghost predicate Walked(start: Disk, now: Disk, counted: Tally, count: Tally, rs: set<Path>, slips: Slips) {
      && Handled(c, start, now, rs, slips)
      && count.Total() == counted.Total() + |rs|
      && count.failed == counted.failed + |Staying(c, now, rs)|
      && (!faults ==> AllDone(c, start, now, rs) && slips == Unseen(c, start.fs, rs))
    }

    /** One more entry walked. */
    lemma {:induction false} WalkedMore(a: Disk, b: Disk, d: Disk, t0: Tally, t1: Tally, t2: Tally, rel: Path,
                                        seen: set<string>, n: string,
                                        x: Slips, y: Slips)
      requires c.Valid() && WellFormed(a.fs) && n !in seen && c.from + rel + [n] in a.fs
      requires Walked(a, b, t0, t1, InEntries(c, a.fs, rel, seen), x)
      requires Walked(b, d, t1, t2, Artifacts(c, b.fs, rel + [n]), y)
      ensures Walked(a, d, t0, t2, InEntries(c, a.fs, rel, seen + {n}), x.And(y))
    {
      EnteredArtifacts(c, a, b, rel, seen, n, x);
      var first, more := InEntries(c, a.fs, rel, seen), Artifacts(c, a.fs, rel + [n]);
      HandledTogether(c, a, b, d, first, more, x, y);
      StayingTogether(c, a.fs, b, d, first, more, y);
      if !faults {
        DoneTogether(c, a, b, d, first, more, x, y);
        UnseenTogether(c, a, b, first, more, x);
      }
    }

    /** A walk that ends early has handled some of the artifacts. */
    lemma {:induction false} WalkCutShort(a: Disk, b: Disk, d: Disk, rel: Path, seen: set<string>, n: string,
                                          x: Slips, y: Slips)
      requires c.Valid() && WellFormed(a.fs) && n !in seen && c.from + rel + [n] in a.fs
      requires Handled(c, a, b, InEntries(c, a.fs, rel, seen), x)
      requires Handled(c, b, d, Artifacts(c, b.fs, rel + [n]), y)
      ensures Handled(c, a, d, Artifacts(c, a.fs, rel), x.And(y))
    {
      EnteredArtifacts(c, a, b, rel, seen, n, x);
      HandledTogether(c, a, b, d, InEntries(c, a.fs, rel, seen), Artifacts(c, a.fs, rel + [n]), x, y);
      HandledWithin(c, a, d, InEntries(c, a.fs, rel, seen + {n}), Artifacts(c, a.fs, rel), x.And(y));
    }

    /** Walk a directory of `.lfbridge/`. A listing that fails ends the walk. */
    method Walk(rel: Path, ghost depth: nat) returns (ok: bool, ghost slips: Slips)
      requires Valid() && IsDir(disk.fs, c.from + rel)
      requires Bounded(disk.fs, c.from, depth)
      modifies this
      ensures Valid() && Handled(c, old(disk), disk, Artifacts(c, old(disk).fs, rel), slips)
      ensures ok ==> Walked(old(disk), disk, old(tally), tally, Artifacts(c, old(disk).fs, rel), slips)
      ensures !faults ==> ok
      decreases depth + 1 - |c.from + rel|
    {
      AtFirst(c, disk, rel);
      slips := NO_SLIPS;
      var f := Fails();
      if f {
        return false, slips;
      }
      var rest := Names(disk.fs, c.from + rel);
      ghost var names, seen: set<string> := rest, {};
      NothingWalked(disk, tally, rel);
      while rest != {}
        invariant Valid()
        invariant Parted(names, seen, rest)
        invariant Walked(old(disk), disk, old(tally), tally, InEntries(c, old(disk).fs, rel, seen), slips)
        decreases |rest|
      {
        var n :| n in rest;
        PartedOn(names, seen, rest, n);
        rest := rest - {n};
        ok, slips := WalkNext(rel, n, old(disk), old(tally), seen, slips, depth);
        if !ok {
          return;
        }
        seen := seen + {n};
      }
      assert seen == names;
      WalkedAll(old(disk), disk, old(tally), tally, rel, slips);
      return true, slips;
    }

    lemma {:induction false} WalkedAll(start: Disk, now: Disk, counted: Tally, count: Tally, rel: Path, slips: Slips)
      requires WellFormed(start.fs) && IsDir(start.fs, c.from + rel)
      requires Walked(start, now, counted, count, InEntries(c, start.fs, rel, Names(start.fs, c.from + rel)), slips)
      ensures Walked(start, now, counted, count, Artifacts(c, start.fs, rel), slips)
    {
      AllEntries(c, start.fs, rel);
    }

    lemma {:induction false} NothingWalked(start: Disk, counted: Tally, rel: Path)
      ensures Walked(start, start, counted, counted, InEntries(c, start.fs, rel, {}), NO_SLIPS)
    {
      assert InEntries(c, start.fs, rel, {}) == {};
      HandledNothing(c, start);
    }

    /** Walk one more entry of a directory that stood at `start` when it was listed. */
    method WalkNext(rel: Path, n: string, ghost start: Disk, ghost counted: Tally, ghost seen: set<string>,
                    ghost x: Slips,
                    ghost depth: nat)
      returns (ok: bool, ghost slips: Slips)
      requires Valid() && WellFormed(start.fs) && c.from + rel + [n] in start.fs && n !in seen
      requires Bounded(start.fs, c.from, depth)
      requires Walked(start, disk, counted, tally, InEntries(c, start.fs, rel, seen), x)
      modifies this
      ensures Valid()
      ensures ok ==> Walked(start, disk, counted, tally, InEntries(c, start.fs, rel, seen + {n}), slips)
      ensures !ok ==> Handled(c, start, disk, Artifacts(c, start.fs, rel), slips)
      ensures !faults ==> ok
      decreases depth + 1 - |c.from + rel|, 1
    {
      ghost var mid, count := disk, tally;
      EnteredArtifacts(c, start, mid, rel, seen, n, x);
      BoundStays(c, start, mid, InEntries(c, start.fs, rel, seen), x, depth);
      ghost var y;
      ok, y := WalkEntry(rel, n, depth);
      slips := x.And(y);
      if ok {
        WalkedMore(start, mid, disk, counted, count, tally, rel, seen, n, x, y);
      } else {
        WalkCutShort(start, mid, disk, rel, seen, n, x, y);
      }
    }

    method WalkEntry(rel: Path, n: string, ghost depth: nat) returns (ok: bool, ghost slips: Slips)
      requires Valid() && c.from + rel + [n] in disk.fs
      requires Bounded(disk.fs, c.from, depth)
      modifies this
      ensures Valid() && Handled(c, old(disk), disk, Artifacts(c, old(disk).fs, rel + [n]), slips)
      ensures ok ==> Walked(old(disk), disk, old(tally), tally, Artifacts(c, old(disk).fs, rel + [n]), slips)
      ensures !faults ==> ok
      decreases depth + 1 - |c.from + rel|, 0
    {
      var child := rel + [n];
      assert c.from + child == c.from + rel + [n];
      if IsDir(disk.fs, c.from + child) {
        ok, slips := Walk(child, depth);
        return;
      }
      slips := WalkFile(child);
      return true, slips;
    }

    /** An entry that is a file: taken along if it is an artifact. */
    method WalkFile(child: Path) returns (ghost slips: Slips)
      requires Valid() && child != [] && IsFile(disk.fs, c.from + child)
      modifies this
      ensures Valid() && Walked(old(disk), disk, old(tally), tally, Artifacts(c, old(disk).fs, child), slips)
    {
      FileEntry(c, disk.fs, child);
      if IsArtifact(child[|child| - 1]) {
        slips := TakeFile(child);
        OneWalked(old(disk), disk, old(tally), tally, child, slips);
      } else {
        slips := NO_SLIPS;
        HandledNothing(c, disk);
      }
    }

    lemma {:induction false} OneWalked(start: Disk, now: Disk, counted: Tally, count: Tally, r: Path, slips: Slips)
      requires Handled(c, start, now, {r}, slips)
      requires !faults ==> Done(c, start, now, r) && slips == Unseen(c, start.fs, {r})
      requires count.Total() == counted.Total() + 1
      requires count.failed == counted.failed + if c.from + r in now.fs then 1 else 0
      ensures Walked(start, now, counted, count, {r}, slips)
    {
      assert Staying(c, now, {r}) == if c.from + r in now.fs then {r} else {};
    }

    // ---- pruning -------------------------------------------------------------------------------------

    /** Remove `.DS_Store` files and what is empty without them, from the bottom up. */
    method PruneEmptyDirs(dir: Path, ghost depth: nat) returns (gone: bool)
      requires Valid() && IsDir(disk.fs, dir)
      requires Bounded(disk.fs, dir, depth)
      modifies this`disk
      ensures Valid() && Pruned(old(disk), disk, dir)
      ensures gone <==> dir !in disk.fs
      ensures !faults ==> KeepersLeft(old(disk), disk, dir)
      decreases depth + 1 - |dir|
    {
      var f := Fails();
      if f {
        return false;
      }
      var rest := Names(disk.fs, dir);
      ghost var names, seen: set<string> := rest, {};
      var remaining := |rest|;
      PruningStarts(disk, dir, !faults);
      while rest != {}
        invariant Valid()
        invariant Pruning(old(disk), disk, dir, names, seen, rest, remaining, !faults)
        decreases |rest|
      {
        var n :| n in rest;
        PruningNext(old(disk), disk, dir, names, seen, rest, remaining, n, depth, !faults);
        ghost var mid := disk;
        var removed := PruneEntry(dir, n, depth);
        PruningOn(old(disk), mid, disk, dir, names, seen, rest, remaining, n, !faults);
        rest := rest - {n};
        seen := seen + {n};
        if removed {
          remaining := remaining - 1;
        }
      }
      PruningEnds(old(disk), disk, dir, names, seen, remaining, !faults);
      if remaining > 0 {
        return false;
      }
      f := Fails();
      if f {
        return false;
      }
      disk := disk.(fs := disk.fs - {dir});
      return true;
    }

    /** Prune a subdirectory, or remove a `.DS_Store`; says whether the entry is gone. */
    method PruneEntry(dir: Path, n: string, ghost depth: nat) returns (gone: bool)
      requires Valid() && dir + [n] in disk.fs
      requires Bounded(disk.fs, dir, depth)
      modifies this`disk
      ensures Valid() && Pruned(old(disk), disk, dir + [n])
      ensures gone <==> dir + [n] !in disk.fs
      ensures !faults ==> KeepersLeft(old(disk), disk, dir + [n])
      decreases depth + 1 - |dir|, 0
    {
      var p := dir + [n];
      if IsDir(disk.fs, p) {
        gone := PruneEmptyDirs(p, depth);
        return;
      }
      NothingBelow(disk.fs, p);
      var f := Fails();
      if n != DS_STORE || f {
        assert n != DS_STORE ==> IsFile(disk.fs, p) && !IsDsStore(p);
        return false;
      }
      RemoveIsWellFormed(disk.fs, p);
      disk := disk.(fs := disk.fs - {p});
      return true;
    }

    // ---- the migration -------------------------------------------------------------------------------

    /** The artifact is where it was, or a file stands at its destination. */
    ghost predicate Saved(before: Disk, after: Disk, r: Path) {
      after.Look(c.from + r) == before.Look(c.from + r) || IsFile(after.fs, c.to + r)
    }

    /** What a run does when no operation fails, but for existence tests. */
    ghost predicate Finished(before: Disk, after: Disk) {
      var all := Artifacts(c, before.fs, []);
      && (forall r :: r in all ==> Done(c, before, after, r))
      && (forall r :: r in all ==> (Saved(before, after, r) <==> !Lost(c, before.fs, r)))
      && (forall r :: r in all ==>
            (KeepsNewest(c, before, after, r) <==> !Hidden(c, before, r) && !Lost(c, before.fs, r)))
      && (forall p :: p in before.fs && c.from <= p ==> (p in after.fs <==> HasKeeper(after.fs, p)))
    }

    lemma {:induction false} KeepersStay(mid: Disk, after: Disk, dir: Path, p: Path)
      requires Pruned(mid, after, dir)
      ensures HasKeeper(after.fs, p) <==> HasKeeper(mid.fs, p)
    {
      if HasKeeper(mid.fs, p) {
        var f :| IsFile(mid.fs, f) && p <= f && !IsDsStore(f);
        assert IsFile(after.fs, f);
      }
    }

    lemma {:induction false} GoneHasNoKeeper(before: Disk, mid: Disk, p: Path, slips: Slips)
      requires c.Valid() && WellFormed(before.fs) && Handled(c, before, mid, Artifacts(c, before.fs, []), slips)
      requires p in before.fs && c.from <= p && p !in mid.fs
      ensures !HasKeeper(mid.fs, p)
    {
      SourceSide(c, before, mid, Artifacts(c, before.fs, []), slips, p);
      assert c.from + p[|c.from|..] == p;
      NothingBelow(before.fs, p);
      if HasKeeper(mid.fs, p) {
        var f :| IsFile(mid.fs, f) && p <= f && !IsDsStore(f);
        SourceSide(c, before, mid, Artifacts(c, before.fs, []), slips, f);
        assert false;
      }
    }

    lemma {:induction false} OneFinished(before: Disk, mid: Disk, after: Disk, slips: Slips, r: Path)
      requires c.Valid() && WellFormed(before.fs) && Pruned(mid, after, c.from)
      requires Handled(c, before, mid, Artifacts(c, before.fs, []), slips)
      requires slips == Unseen(c, before.fs, Artifacts(c, before.fs, []))
      requires r in Artifacts(c, before.fs, []) && Done(c, before, mid, r)
      ensures Done(c, before, after, r) && (Saved(before, after, r) <==> !Lost(c, before.fs, r))
      ensures KeepsNewest(c, before, after, r) <==> !Hidden(c, before, r) && !Lost(c, before.fs, r)
    {
      ArtifactsAreKept(c, before, mid, after, Artifacts(c, before.fs, []), slips, r);
      assert Fate(c, before, mid, slips, r);
      HiddenIsLost(c, before, after, slips, r);
    }

    lemma {:induction false} RunFinishes(before: Disk, mid: Disk, after: Disk, slips: Slips)
      requires c.Valid() && WellFormed(before.fs) && Handled(c, before, mid, Artifacts(c, before.fs, []), slips)
      requires AllDone(c, before, mid, Artifacts(c, before.fs, []))
      requires slips == Unseen(c, before.fs, Artifacts(c, before.fs, []))
      requires Pruned(mid, after, c.from) && KeepersLeft(mid, after, c.from)
      ensures Finished(before, after)
    {
      forall r | r in Artifacts(c, before.fs, []) {
        OneFinished(before, mid, after, slips, r);
      }
      forall p | p in before.fs && c.from <= p
        ensures p in after.fs <==> HasKeeper(after.fs, p)
      {
        KeepersStay(mid, after, c.from, p);
        if p !in mid.fs {
          GoneHasNoKeeper(before, mid, p, slips);
        }
      }
    }

    /** No version of an artifact is lost in a run, but where it was written over unseen or dropped for a directory. */
    ghost predicate VersionsKept(before: Disk, after: Disk, slips: Slips) {
      forall r :: r in Artifacts(c, before.fs, []) ==>
        (KeepsNewest(c, before, after, r) <==> !Clobbered(c, before, after, slips, r) && !Dropped(c, before, after, r))
    }

    /** Only a version that is hidden from the run, or that a directory can take the place of, may be lost. */
    ghost predicate VersionsSafe(before: Disk, after: Disk) {
      forall r :: r in Artifacts(c, before.fs, []) && !Hidden(c, before, r) && !Droppable(c, before.fs, r) ==>
        KeepsNewest(c, before, after, r)
    }

    lemma {:induction false} VersionsAreKept(before: Disk, after: Disk, slips: Slips)
      requires Migrated(c, before, after, slips)
      ensures VersionsKept(before, after, slips) && VersionsSafe(before, after)
    {
      forall r | r in Artifacts(c, before.fs, [])
        ensures KeepsNewest(c, before, after, r) <==>
                  !Clobbered(c, before, after, slips, r) && !Dropped(c, before, after, r)
        ensures !Hidden(c, before, r) && !Droppable(c, before.fs, r) ==> KeepsNewest(c, before, after, r)
      {
        NewestIsKeptUnless(c, before, after, slips, r);
        OnlyHiddenIsLost(c, before, after, slips, r);
      }
    }

    /**
     Move a repository's artifacts and prune what that leaves empty. Nothing else changes. Whatever fails, the newer
     version of each artifact survives unless it stands where an existence test can fail, or a directory stands there
     that is not taken to be older; when nothing but existence tests fails, just those versions are lost.
     */
    method Migrate() returns (result: Option<Tally>, ghost slips: Slips)
      requires Valid()
      modifies this
      ensures Valid() && Migrated(c, old(disk), disk, slips) && VersionsKept(old(disk), disk, slips)
      ensures VersionsSafe(old(disk), disk)
      ensures !IsDir(old(disk).fs, c.from) ==> result.None? && disk == old(disk)
      ensures result.Some? ==> Counts(c, old(disk), disk, result.value)
      ensures !faults ==> slips == Unseen(c, old(disk).fs, Artifacts(c, old(disk).fs, []))
      ensures !faults && IsDir(old(disk).fs, c.from) ==>
                (result.None? <==> Artifacts(c, old(disk).fs, []) == {}) && Finished(old(disk), disk)
    {
      UntouchedIsMigrated(c, disk);
      VersionsAreKept(disk, disk, NO_SLIPS);
      slips := NO_SLIPS;
      var f := Fails();
      if f || !IsDir(disk.fs, c.from) {
        NoDirNoArtifacts(disk.fs);
        return None, slips;
      }
      var ok;
      ok, slips := WalkAndPrune();
      VersionsAreKept(old(disk), disk, slips);
      return if !ok || tally.Total() == 0 then None else Some(tally), slips;
    }

    lemma {:induction false} NoDirNoArtifacts(fs: Tree)
      requires WellFormed(fs)
      ensures !IsDir(fs, c.from) ==> Artifacts(c, fs, []) == {}
    {
      forall r | IsArtifactAt(c, fs, r)
        ensures IsDir(fs, c.from)
      {
        BelowPasses(fs, c.from, c.from + r);
      }
    }

    method WalkAndPrune() returns (ok: bool, ghost slips: Slips)
      requires Valid() && IsDir(disk.fs, c.from)
      modifies this
      ensures Valid() && Migrated(c, old(disk), disk, slips)
      ensures ok ==> Counts(c, old(disk), disk, tally) && (tally.Total() == 0 <==> Artifacts(c, old(disk).fs, []) == {})
      ensures !faults ==> ok && Finished(old(disk), disk)
      ensures !faults ==> slips == Unseen(c, old(disk).fs, Artifacts(c, old(disk).fs, []))
    {
      ghost var before := disk;
      ghost var depth := Depth(disk.fs);
      tally := NOTHING;
      assert c.from + [] == c.from;
      ok, slips := Walk([], depth);
      if !ok {
        HandledIsMigrated(c, before, disk, slips);
      } else {
        PruneWalked(before, slips, depth);
      }
    }

    /** Prune what the walk has left. */
    method PruneWalked(ghost before: Disk, ghost slips: Slips, ghost depth: nat)
      requires Valid() && WellFormed(before.fs) && IsDir(before.fs, c.from) && Bounded(before.fs, c.from, depth)
      requires Walked(before, disk, NOTHING, tally, Artifacts(c, before.fs, []), slips)
      modifies this`disk
      ensures Valid() && Migrated(c, before, disk, slips)
      ensures Counts(c, before, disk, tally)
      ensures tally.Total() == 0 <==> Artifacts(c, before.fs, []) == {}
      ensures !faults ==> Finished(before, disk)
    {
      BoundStays(c, before, disk, Artifacts(c, before.fs, []), slips, depth);
      SourceDirStays(c, before, disk, Artifacts(c, before.fs, []), slips);
      ghost var mid := disk;
      var gone := PruneEmptyDirs(c.from, depth);
      PrunedIsMigrated(c, before, mid, disk, slips);
      if !faults {
        RunFinishes(before, mid, disk, slips);
      }
    }

    lemma {:induction false} NoArtifactsLeft(before: Disk, after: Disk, slips: Slips)
      requires c.Valid() && Migrated(c, before, after, slips) && Finished(before, after)
      requires forall r :: r in Artifacts(c, before.fs, []) ==> ClearAt(c, before.fs, r)
      ensures Artifacts(c, after.fs, []) == {}
      ensures forall p :: p in after.fs && c.from <= p ==> HasKeeper(after.fs, p)
    {
      forall p | p in after.fs && c.from <= p
        ensures p in before.fs
      {
        if p !in before.fs {
          var r :| r in Artifacts(c, before.fs, []) && p <= c.to + r;
          SidesApart(c, r, p);
          assert false;
        }
      }
      forall r
        ensures !IsArtifactAt(c, after.fs, r)
      {
        WasArtifact(before, after, slips, r);
        assert r in Artifacts(c, before.fs, []) ==> Done(c, before, after, r);
      }
    }

    lemma {:induction false} WasArtifact(before: Disk, after: Disk, slips: Slips, r: Path)
      requires c.Valid() && Migrated(c, before, after, slips)
      ensures IsArtifactAt(c, after.fs, r) && c.from + r in before.fs ==> r in Artifacts(c, before.fs, [])
    {
      var s := c.from + r;
      if Concerns(c, Artifacts(c, before.fs, []), s) {
        var r' :| r' in Artifacts(c, before.fs, []) && (s == c.from + r' || s == c.to + r');
        SidesApart(c, r', c.to + r');
        SameTail(c.from, r, r');
      }
    }

    lemma {:induction false} NothingMigrated(before: Disk, after: Disk, slips: Slips)
      requires Artifacts(c, before.fs, []) == {} && Migrated(c, before, after, slips)
      ensures forall p :: p in before.fs && !(c.from <= p) ==> p in after.fs
      ensures forall p :: IsFile(before.fs, p) && c.from <= p && !IsDsStore(p) ==> IsFile(after.fs, p)
      ensures forall p :: p in before.fs && p in after.fs ==> after.fs[p] == before.fs[p]
      ensures forall p :: p in after.fs ==> p in before.fs
    {
      assert forall p :: !Concerns(c, {}, p) && !OnTheWay(c, {}, p);
      forall p | p in before.fs && after.Look(p) == before.Look(p)
        ensures p in after.fs && after.fs[p] == before.fs[p]
      {
      }
    }

    lemma {:induction false} NothingPruned(before: Disk, after: Disk, slips: Slips, p: Path)
      requires Artifacts(c, before.fs, []) == {} && Migrated(c, before, after, slips) && Finished(before, after)
      requires p in before.fs && c.from <= p && HasKeeper(before.fs, p)
      ensures p in after.fs
    {
      NothingMigrated(before, after, slips);
      var f :| IsFile(before.fs, f) && p <= f && !IsDsStore(f);
      assert IsFile(after.fs, f);
    }

    /** With nothing to move and nothing to prune a run changes nothing. */
    lemma {:induction false} QuietRun(before: Disk, after: Disk, slips: Slips)
      requires Artifacts(c, before.fs, []) == {}
      requires forall p :: p in before.fs && c.from <= p ==> HasKeeper(before.fs, p)
      requires Migrated(c, before, after, slips) && Finished(before, after)
      ensures after.fs == before.fs
    {
      forall p | p in before.fs && c.from <= p
        ensures p in after.fs
      {
        NothingPruned(before, after, slips, p);
      }
      NothingMigrated(before, after, slips);
    }

    /** When every artifact can be moved, a second run changes nothing, whatever the first one failed to see. */
    method MigrateTwice() returns (ghost once: Disk, second: Option<Tally>, ghost slips: Slips)
      requires Valid() && !faults && IsDir(disk.fs, c.from)
      requires forall r :: r in Artifacts(c, disk.fs, []) ==> ClearAt(c, disk.fs, r)
      modifies this
      ensures Valid() && second.None? && disk.fs == once.fs
      ensures Migrated(c, old(disk), once, slips) && Finished(old(disk), once)
      ensures slips == Unseen(c, old(disk).fs, Artifacts(c, old(disk).fs, []))
    {
      ghost var before := disk;
      var first;
      first, slips := Migrate();
      once := disk;
      NoArtifactsLeft(before, once, slips);
      ghost var y;
      second, y := Migrate();
      if IsDir(once.fs, c.from) {
        QuietRun(once, disk, y);
      }
    }
  }
}
