/**
 The migration of one storage, as it runs: `.lfbridge/` merged into the root, entry by entry. A look-up of a blind
 path fails, and reads as absent: always in a run without faults, at times in a run with `faults` set, in which any
 other operation may fail as well and a failed copy may leave any bytes behind.
 */
module SdlMigration {
  import opened Wrappers
  import opened Bytes
  import opened FileTree
  import opened SdlSafety
  import opened SdlMerge
  import opened SdlOutcome
  import opened SdlCompose
  import opened SdlSteps
  import opened SdlRuns
  import opened SdlResults

  class Migration {
    const c: Config
    const faults: bool
    const git: bool
    var fs: Tree
    var conflicts: map<Path, Record>

    ghost predicate Valid()
      reads this
    {
      c.Valid() && WellFormed(fs) && IsDir(fs, c.root) && MarksFit(c, conflicts)
    }

    ghost function Now(): Store
      reads this
    {
      Store(fs, conflicts)
    }

    constructor (c: Config, faults: bool, git: bool, fs: Tree, conflicts: map<Path, Record>)
      requires c.Valid() && WellFormed(fs) && IsDir(fs, c.root) && MarksFit(c, conflicts)
      ensures Valid() && this.c == c && this.faults == faults && this.fs == fs && this.conflicts == conflicts
    {
      this.c, this.faults, this.git, this.fs, this.conflicts := c, faults, git, fs, conflicts;
    }

    // ---- the operations ------------------------------------------------------------------------------

    method Fails() returns (f: bool)
      ensures f ==> faults
    {
      var b: bool := *;
      return faults && b;
    }

    /** Is anything at `p`? A failed look-up says no. */
    method Exists(p: Path) returns (there: bool)
      ensures there ==> p in fs
      ensures !there ==> p !in fs || p in c.blind
      ensures !faults ==> (there <==> c.Sees(fs, p))
    {
      var succeeds: bool := *;
      return p in fs && (p !in c.blind || (faults && succeeds));
    }

    /** Look a path up; a failed look-up reads as absent. */
    method StatOrNull(p: Path) returns (n: Option<Node>)
      ensures n.Some? ==> p in fs && n.value == fs[p]
      ensures n.None? ==> p !in fs || p in c.blind
      ensures !faults ==> (n.Some? <==> c.Sees(fs, p))
    {
      var there := Exists(p);
      return if there then Some(fs[p]) else None;
    }

    method ReadDir(dir: Path) returns (names: seq<string>)
      ensures forall n :: n in names ==> dir + [n] in fs
      ensures forall i, j :: 0 <= i < j < |names| ==> names[i] != names[j]
      ensures !faults && IsDir(fs, dir) ==> forall n :: dir + [n] in fs <==> n in names
    {
      var f := Fails();
      if f || !IsDir(fs, dir) {
        return [];
      }
      var rest := Names(fs, dir);
      ghost var all := rest;
      names := [];
      while rest != {}
        invariant rest <= all
        invariant forall n :: n in names <==> n in all && n !in rest
        invariant forall i, j :: 0 <= i < j < |names| ==> names[i] != names[j]
        decreases |rest|
      {
        var n :| n in rest;
        rest := rest - {n};
        names := names + [n];
      }
    }

    method MakeDirs(d: Path) returns (ok: bool)
      requires Valid()
      modifies this`fs
      ensures Valid()
      ensures Grown(old(fs), fs)
      ensures forall p :: p in fs && p !in old(fs) ==> p <= d && fs[p] == Dir
      ensures ok ==> IsDir(fs, d)
      ensures !faults ==> ok == Passable(old(fs), d) && fs == if ok then WithDirs(old(fs), d) else old(fs)
    {
      assert c.root[..0] == [];
      assert IsDir(fs, []);
      ghost var start := fs;
      for k := 0 to |d|
        invariant Valid()
        invariant Grown(start, fs)
        invariant forall p :: p in fs && p !in start ==> p <= d[..k] && fs[p] == Dir
        invariant forall j :: 0 <= j <= k ==> IsDir(fs, d[..j])
      {
        var p := d[..k + 1];
        assert Parent(p) == d[..k];
        if p in fs {
          if fs[p].File? {
            FileBlocks(start, fs, d, k + 1);
            return false;
          }
        } else {
          var f := Fails();
          if f {
            return false;
          }
          PutIsWellFormed(fs, p, Dir);
          fs := fs[p := Dir];
        }
      }
      assert d[..|d|] == d;
      forall p | p <= d
        ensures IsDir(fs, p)
      {
        assert p == d[..|p|];
      }
      return true;
    }

    /** A file on the way stood there before, and the directories above it did. */
    lemma {:induction false} FileBlocks(start: Tree, now: Tree, d: Path, k: nat)
      requires WellFormed(start) && Grown(start, now) && 0 < k <= |d|
      requires IsFile(now, d[..k])
      requires forall p :: p in now && p !in start ==> p <= d[..k - 1] && now[p] == Dir
      ensures !Passable(start, d) && now == start
    {
      assert d[..k] in start;
      forall p | p <= d[..k - 1]
        ensures p in start
      {
        assert p == d[..k][..|p|];
      }
      assert now.Keys == start.Keys;
    }

    method Rename(src: Path, dst: Path, ghost r: Path) returns (ok: bool)
      requires Valid()
      requires r != [] && src == c.Legacy() + r && dst == c.root + r
      requires IsDir(fs, Parent(dst))
      modifies this`fs
      ensures Valid()
      ensures !ok ==> fs == old(fs)
      ensures ok ==> src in old(fs) && Renameable(old(fs), src, dst) && fs == Renamed(old(fs), src, dst)
      ensures !faults && src in old(fs) && Renameable(old(fs), src, dst) ==> ok
    {
      var f := Fails();
      if f || src !in fs || !Renameable(fs, src, dst) {
        return false;
      }
      assert |dst| < |src| && |c.root| < |dst|;
      RenameableIsBare(fs, src, dst);
      RenamedIsWellFormed(fs, src, dst);
      fs := Renamed(fs, src, dst);
      return true;
    }

    /** `git mv` moves what it tracks to a free path and skips the rest; success is judged by the source being gone. */
    method GitMove(src: Path, dst: Path, ghost r: Path) returns (gone: bool)
      requires Valid()
      requires r != [] && src == c.Legacy() + r && dst == c.root + r
      requires IsDir(fs, Parent(dst))
      modifies this`fs
      ensures Valid()
      ensures fs == old(fs) || (src in old(fs) && dst !in old(fs) && fs == Renamed(old(fs), src, dst))
      ensures !gone ==> fs == old(fs)
      ensures !faults && src in old(fs) && src !in c.blind && gone ==> fs != old(fs)
    {
      var tracked: bool := *;
      if tracked && dst !in fs {
        var moved := Rename(src, dst, r);
      }
      var there := Exists(src);
      return !there;
    }

    method Unlink(p: Path) returns (ok: bool)
      requires Valid()
      modifies this`fs
      ensures Valid()
      ensures !ok ==> fs == old(fs)
      ensures ok ==> IsFile(old(fs), p) && fs == old(fs) - {p}
      ensures !faults && IsFile(old(fs), p) ==> ok
    {
      var f := Fails();
      if f || !IsFile(fs, p) {
        return false;
      }
      NothingBelow(fs, p);
      RemoveIsWellFormed(fs, p);
      fs := fs - {p};
      return true;
    }

    /**
     Copy a file, over the file at `target` if one is there. A failed copy, or one that goes wrong unnoticed,
     may leave any bytes.
     */
    method CopyFile(src: Path, target: Path) returns (ok: bool)
      requires Valid()
      requires target != [] && src != target
      modifies this`fs
      ensures Valid()
      ensures fs == old(fs) || exists bytes :: !IsDir(old(fs), target) && fs == old(fs)[target := File(bytes)]
      ensures fs != old(fs) || ok ==> IsFile(old(fs), src)
      ensures ok ==> IsFile(fs, target)
      ensures !faults ==> ok == (IsFile(old(fs), src) && IsDir(old(fs), Parent(target)) && !IsDir(old(fs), target))
      ensures !faults ==> fs == if ok then old(fs)[target := old(fs)[src]] else old(fs)
    {
      if !IsFile(fs, src) || !IsDir(fs, Parent(target)) || IsDir(fs, target) {
        return false;
      }
      var f := Fails();
      var bytes := fs[src].bytes;
      if f {
        var left: bool := *;
        if !left {
          return false;
        }
        bytes := *;
      }
      PutIsWellFormed(fs, target, File(bytes));
      fs := fs[target := File(bytes)];
      var noticed: bool := *;
      return !f || !noticed;
    }

    method SameFiles(src: Path, a: seq<byte>, b: seq<byte>) returns (same: bool)
      ensures same ==> SameContent(c.parse, IsYaml(src), a, b)
      ensures !faults && SameContent(c.parse, IsYaml(src), a, b) ==> same
    {
      var f := Fails();
      return !f && SameContent(c.parse, IsYaml(src), a, b);
    }

    method PruneIfEmpty(dir: Path)
      requires Valid()
      requires dir != c.root
      modifies this`fs
      ensures Valid()
      ensures fs == old(fs) || (IsDir(old(fs), dir) && Empty(old(fs), dir) && fs == old(fs) - {dir})
      ensures !faults && IsDir(old(fs), dir) && Empty(old(fs), dir) ==> fs == old(fs) - {dir}
    {
      if !IsDir(fs, dir) {
        return;
      }
      var names := ReadDir(dir);
      var f := Fails();
      if names != [] {
        assert dir < dir + [names[0]];
        return;
      }
      if f || exists p :: p in fs && dir < p {
        return;
      }
      assert Empty(fs, dir);
      if dir < c.root {
        assert false;
      }
      RemoveIsWellFormed(fs, dir);
      fs := fs - {dir};
    }

    // ---- the merge -----------------------------------------------------------------------------------

    method Move(src: Path, dst: Path, ghost r: Path) returns (moved: bool)
      requires Valid()
      requires r != [] && src == c.Legacy() + r && dst == c.root + r
      requires src in fs && IsDir(fs, Parent(dst))
      modifies this`fs
      ensures Valid()
      ensures fs == old(fs) || (Renameable(old(fs), src, dst) && fs == Renamed(old(fs), src, dst))
      ensures !faults && src !in c.blind && Renameable(old(fs), src, dst) ==> moved && fs == Renamed(old(fs), src, dst)
    {
      AllDirs(fs, Parent(dst));
      var made := MakeDirs(Parent(dst));
      assert fs == old(fs);
      if !made {
        return false;
      }
      if git {
        moved := GitMove(src, dst, r);
        if moved {
          return true;
        }
      }
      moved := Rename(src, dst, r);
    }

    lemma {:induction false} AllDirs(fs: Tree, d: Path)
      requires WellFormed(fs) && IsDir(fs, d)
      ensures Passable(fs, d)
      ensures forall p :: p <= d ==> p in fs
    {
      assert d[..|d|] == d;
      assert forall p :: p <= d ==> p == d[..|p|];
    }

    /** The first of the entry's slots that looks free, if one of them still does when asked again. */
    method FreePlace(r: Path) returns (n: nat)
      requires Valid() && r != []
      ensures n <= SLOTS
      ensures n < SLOTS ==> c.Slot(r, n) !in fs || c.Slot(r, n) in c.blind
      ensures forall m: nat :: m < n < SLOTS ==> c.Slot(r, m) in fs
      ensures n == SLOTS ==> (forall m: nat :: m < SLOTS ==> c.Slot(r, m) in fs) ||
                             exists m: nat :: m < SLOTS && faults && c.Slot(r, m) in c.blind && c.Slot(r, m) in fs
      ensures !faults ==> FirstUnseen(c, fs, r, n)
    {
      n := 0;
      var taken := Exists(c.Slot(r, n));
      while taken && n < SLOTS - 1
        invariant n < SLOTS
        invariant taken ==> c.Slot(r, n) in fs
        invariant !taken ==> c.Slot(r, n) !in fs || c.Slot(r, n) in c.blind
        invariant forall m: nat :: m < n ==> c.Slot(r, m) in fs
        invariant !faults ==> (taken <==> c.Sees(fs, c.Slot(r, n)))
        invariant !faults ==> forall m: nat :: m < n ==> c.Sees(fs, c.Slot(r, m))
      {
        n := n + 1;
        taken := Exists(c.Slot(r, n));
      }
      var still := Exists(c.Slot(r, n));
      if still {
        n := SLOTS;
      }
    }

    /** Copy the loser into a slot, check the bytes that landed, and only then remove it. */
    method CopyVerifyUnlink(src: Path, ghost r: Path, n: nat, at: Path) returns (target: Option<Path>)
      requires Valid()
      requires r != [] && src == c.Legacy() + r && n < SLOTS && at == c.Slot(r, n)
      requires at !in fs || at in c.blind
      modifies this`fs
      ensures Valid()
      ensures Attempted(c, old(fs), fs, r, n, target)
      ensures !faults && src !in c.blind ==> !IsDir(old(fs), Parent(at)) || PutAt(c, old(fs), fs, r, n, target)
    {
      SlotIsOutside(c, r, n);
      assert src != at by {
        assert c.InLegacy(src);
      }
      var copied := CopyFile(src, at);
      if !copied {
        return None;
      }
      var source := StatOrNull(src);
      var landed := StatOrNull(at);
      if source.None? || landed.None? || source != landed {
        var dropped := Unlink(at);
        return None;
      }
      var unlinked := Unlink(src);
      return if unlinked then Some(at) else None;
    }

    lemma {:induction false} AttemptIsTried(a: Tree, d: Tree, b: Tree, r: Path, n: nat, target: Option<Path>)
      requires c.Valid() && r != [] && n < SLOTS
      requires Grown(a, d) && forall p :: p in d && p !in a ==> p <= SlotDir(c, r) && d[p] == Dir
      requires c.Slot(r, n) !in d || c.Slot(r, n) in c.blind
      requires Attempted(c, d, b, r, n, target)
      ensures Tried(c, a, b, r, target)
    {
      var src, at := c.Legacy() + r, c.Slot(r, n);
      SlotIsOutside(c, r, n);
      DirLeadsToSlot(c, r, n);
      assert c.InLegacy(src);
      forall p | c.root <= p || c.InLegacy(p)
        ensures Same(a, d, p) && (p != src ==> Same(a, b, p))
      {
        NotOnTheWay(r, p);
        assert p != at && p != src ==> Same(d, b, p);
      }
      forall p | IsFile(b, p) && !IsFile(a, p)
        ensures p == at && IsFile(a, src)
      {
        assert p != at && p != src ==> Same(d, b, p);
        assert c.root <= src;
      }
      BelowOne(r, r);
      if Unclouded(c, a, {r}) {
        assert at in a ==> !(IsFile(a, src) && IsFile(a, at) && at in c.blind);
        forall p | p in a && (p != src || target.None?)
          ensures p in b && b[p] == a[p]
        {
          if p != at {
            assert Same(d, b, p);
          }
        }
      }
    }

    lemma {:induction false} NotOnTheWay(r: Path, p: Path)
      requires c.Valid() && r != []
      ensures c.root <= p || c.InLegacy(p) ==> !(p <= SlotDir(c, r))
    {
      if p <= SlotDir(c, r) {
        AboveIsOutside(c, r, p);
      }
    }

    /** Put the loser into the quarantine. Nothing when any of that goes wrong. */
    method QuarantineLoser(src: Path, ghost r: Path) returns (target: Option<Path>)
      requires Valid()
      requires r != [] && src == c.Legacy() + r
      modifies this`fs
      ensures Valid()
      ensures Tried(c, old(fs), fs, r, target)
      ensures !faults && src !in c.blind ==> PutAway(c, old(fs), fs, r, target)
    {
      var rel := c.Rel(src);
      assert rel == r;
      if Refused(rel) {
        return None;
      }
      ghost var start := fs;
      var made := MakeDirs(SlotDir(c, rel));
      if !made {
        GrownIsTried(start, fs, r);
        return None;
      }
      var n := FreePlace(rel);
      if n == SLOTS {
        GrownIsTried(start, fs, r);
        return None;
      }
      ghost var mid := fs;
      target := CopyVerifyUnlink(src, r, n, c.Slot(rel, n));
      AttemptIsTried(start, mid, fs, r, n, target);
    }

    lemma {:induction false} GrownIsTried(a: Tree, b: Tree, r: Path)
      requires c.Valid() && r != []
      requires Grown(a, b) && forall p :: p in b && p !in a ==> p <= SlotDir(c, r) && b[p] == Dir
      ensures Tried(c, a, b, r, None)
    {
      forall p | c.root <= p || c.InLegacy(p)
        ensures Same(a, b, p)
      {
        NotOnTheWay(r, p);
      }
      assert c.InLegacy(c.Legacy() + r);
    }

    /** Quarantine the loser and record where it went. */
    method KeepLoser(src: Path, srcStat: Option<Node>, dst: Path, marker: map<Path, Record>, ghost r: Path)
      returns (target: Option<Path>)
      requires Valid()
      requires r != [] && src == c.Legacy() + r
      requires MarksFit(c, marker)
      modifies this
      ensures Valid()
      ensures Tried(c, old(fs), fs, r, target)
      ensures !faults && src !in c.blind ==> PutAway(c, old(fs), fs, r, target)
      ensures !faults ==> exists mark: Record :: mark.quarantinedTo == target && conflicts == marker[src := mark]
    {
      target := QuarantineLoser(src, r);
      var unwritable := Fails();
      if !unwritable {
        var size := if srcStat.Some? && srcStat.value.File? then |srcStat.value.bytes| else -1;
        var mark := Record(dst, size, target);
        conflicts := marker[src := mark];
      }
    }

    lemma {:induction false} LoserKept(a: Store, b: Store, r: Path, target: Option<Path>, depth: nat)
      requires c.Valid() && WellFormed(a.fs) && WellFormed(b.fs) && MarksFit(c, a.marks)
      requires r != [] && Tried(c, a.fs, b.fs, r, target)
      requires !faults && SeesEntries(c) && Met(c, a.fs, r) ==> Loses(c, a, r)
      requires !faults && c.Legacy() + r !in c.blind ==> PutAway(c, a.fs, b.fs, r, target)
      requires !faults ==>
                 exists mark: Record :: mark.quarantinedTo == target && b.marks == a.marks[c.Legacy() + r := mark]
      ensures Done(c, !faults, a, b, {r}, depth)
    {
      assert c.InLegacy(c.Legacy() + r);
      DonePut(c, !faults, a, b, r, target, depth);
    }

    /** The root copy wins; the other is dropped if its content is already kept, and quarantined if it is not. */
    method ResolveConflict(src: Path, srcStat: Option<Node>, dst: Path, ghost r: Path,
                           ghost depth: nat) returns (gone: bool)
      requires Valid()
      requires r != [] && src == c.Legacy() + r && dst == c.root + r
      requires srcStat.Some? ==> src in fs && srcStat.value == fs[src]
      requires !faults && SeesEntries(c) && Met(c, fs, r) ==>
                 srcStat.Some? && Ends(c, fs, r) && c.Sees(fs, dst) && !Duplicate(c, fs, r)
      modifies this
      ensures Valid()
      ensures Done(c, !faults, old(Now()), Now(), {r}, depth)
    {
      assert c.InLegacy(src);
      var unreadable := Fails();
      var marker := if unreadable then map[] else conflicts;
      if src in marker && marker[src].quarantinedTo.Some? && srcStat.Some? && srcStat.value.File? {
        var kept := marker[src].quarantinedTo.value;
        QuarantineIsOutside(c, kept);
        var copy := StatOrNull(kept);
        if copy.Some? && copy.value.File? {
          var same := SameFiles(src, srcStat.value.bytes, copy.value.bytes);
          if same {
            var dropped := Unlink(src);
            if dropped {
              DoneDrop(c, !faults, old(Now()), Now(), r, kept, depth);
              return true;
            }
          }
        }
      }
      var target := KeepLoser(src, srcStat, dst, marker, r);
      LoserKept(old(Now()), Now(), r, target, depth);
      return target.Some?;
    }

    /** Two entries that cannot be merged as directories: the same content once, or a conflict. */
    method MergeFile(src: Path, srcStat: Option<Node>, dst: Path, dstStat: Node, ghost r: Path,
                     ghost depth: nat) returns (moved: bool)
      requires Valid()
      requires r != [] && src == c.Legacy() + r && dst == c.root + r
      requires srcStat.Some? ==> src in fs && srcStat.value == fs[src]
      requires dst in fs && dstStat == fs[dst]
      requires !faults && SeesEntries(c) && Met(c, fs, r) ==> srcStat.Some? && Ends(c, fs, r) && c.Sees(fs, dst)
      modifies this
      ensures Valid()
      ensures Done(c, !faults, old(Now()), Now(), {r}, depth)
    {
      if srcStat.Some? && srcStat.value.File? && dstStat.File? {
        var same := SameFiles(src, srcStat.value.bytes, dstStat.bytes);
        if same {
          moved := Unlink(src);
          if moved {
            HomeIsRest(r);
            DoneDrop(c, !faults, old(Now()), Now(), r, dst, depth);
          } else {
            DoneStill(c, !faults, Now(), r, depth);
          }
          return;
        }
      }
      moved := ResolveConflict(src, srcStat, dst, r, depth);
    }

    lemma {:induction false} HomeIsRest(r: Path)
      requires c.Valid() && r != []
      ensures c.InLegacy(c.Legacy() + r) && MayRest(c, c.Legacy() + r, c.root + r)
    {
      assert c.Rel(c.Legacy() + r) == r;
    }

    lemma {:induction false} DoneStill(c: Config, told: bool, a: Store, r: Path, depth: nat)
      requires c.Valid() && !told
      ensures Done(c, told, a, a, {r}, depth)
    {
      ConfinedNothing(c, a.fs, {r}, depth);
      KeptNothing(c, a.fs, {r});
    }

    /** Merge one entry: `src`, which is `r` below `.lfbridge/`, into its root path. */
    method MergeEntry(src: Path, dst: Path, ghost r: Path, ghost depth: nat) returns (moved: bool)
      requires Valid()
      requires r != [] && src == c.Legacy() + r && dst == c.root + r
      requires src in fs && IsDir(fs, Parent(dst))
      requires Bounded(c, fs, depth)
      modifies this
      ensures Valid()
      ensures Done(c, !faults, old(Now()), Now(), {r}, depth)
      decreases depth + 1 - |src|, 2
    {
      assert c.InLegacy(src);
      var dstStat := StatOrNull(dst);
      if dstStat.None? {
        moved := Move(src, dst, r);
        DoneMove(c, !faults, old(Now()), Now(), r, depth);
        return;
      }
      var srcStat := StatOrNull(src);
      if srcStat == Some(Dir) && dstStat == Some(Dir) {
        var count := MergeDirectory(src, dst, r, depth);
        moved := count > 0;
      } else {
        moved := MergeFile(src, srcStat, dst, dstStat.value, r, depth);
      }
    }

    /** What the merge of one entry of a directory leaves of the directory and of its other entries. */
    lemma {:induction false} DirStays(m: Tree, b: Tree, q: Path, names: seq<string>, i: nat, depth: nat)
      requires c.Valid() && i < |names| && forall j, k :: 0 <= j < k < |names| ==> names[j] != names[k]
      requires Confined(c, m, b, {q + [names[i]]}, depth)
      requires IsDir(m, c.Legacy() + q) && IsDir(m, c.root + q)
      requires forall j :: i <= j < |names| ==> c.Legacy() + (q + [names[j]]) in m
      ensures IsDir(b, c.Legacy() + q) && IsDir(b, c.root + q)
      ensures forall j :: i < j < |names| ==> c.Legacy() + (q + [names[j]]) in b
    {
      var r := q + [names[i]];
      AllAtOne(r);
      assert |c.root + q| < |c.Legacy() + r| && |c.Legacy() + q| < |c.Legacy() + r|;
      LegacyIsInRoot(c, c.Legacy() + q);
      forall j | i < j < |names|
        ensures c.Legacy() + (q + [names[j]]) in b
      {
        var r' := q + [names[j]];
        assert r'[|q|] == names[j] && r[|q|] == names[i];
        SamePrefix(c.Legacy(), r, r');
        LegacyIsInRoot(c, c.Legacy() + r');
      }
    }

    /** Where the merge of a directory stands with its first `i` entries done. */
    ghost predicate Merging(start: Store, now: Store, q: Path, names: seq<string>, i: nat, depth: nat)
      requires c.Valid() && i <= |names|
    {
      && IsDir(now.fs, c.Legacy() + q) && IsDir(now.fs, c.root + q) && Bounded(c, now.fs, depth)
      && (forall j :: i <= j < |names| ==> c.Legacy() + (q + [names[j]]) in now.fs)
      && Done(c, !faults, start, now, Tops(q, names[..i]), depth)
    }

    lemma {:induction false} MergingStarts(start: Store, q: Path, names: seq<string>, depth: nat)
      requires c.Valid() && IsDir(start.fs, c.Legacy() + q) && IsDir(start.fs, c.root + q)
      requires Bounded(c, start.fs, depth)
      requires forall n :: n in names ==> c.Legacy() + (q + [n]) in start.fs
      ensures Merging(start, start, q, names, 0, depth)
    {
      DoneNothing(c, !faults, start, depth);
      assert Tops(q, names[..0]) == {};
    }

    lemma {:induction false} MergingSteps(start: Store, before: Store, now: Store, q: Path, names: seq<string>,
                                          i: nat, depth: nat)
      requires c.Valid() && WellFormed(start.fs) && WellFormed(before.fs) && MarksFit(c, start.marks)
      requires i < |names| && forall j, k :: 0 <= j < k < |names| ==> names[j] != names[k]
      requires forall n :: n in names ==> c.Legacy() + (q + [n]) in start.fs
      requires Merging(start, before, q, names, i, depth)
      requires Done(c, !faults, before, now, {q + [names[i]]}, depth)
      ensures Merging(start, now, q, names, i + 1, depth)
    {
      DoneNext(c, !faults, start, before, now, q, names, i, depth);
      DirStays(before.fs, now.fs, q, names, i, depth);
    }

    lemma {:induction false} ChildPaths(at: Path, r: Path, n: string)
      ensures at + r + [n] == at + (r + [n]) && Parent(at + r + [n]) == at + r
    {
    }

    /** The body of the loop over a directory's entries. */
    method MergeOneOf(src: Path, dst: Path, names: seq<string>, i: nat, ghost start: Store, ghost r: Path,
                      ghost depth: nat)
      returns (moved: bool)
      requires Valid()
      requires src == c.Legacy() + r && dst == c.root + r
      requires WellFormed(start.fs) && MarksFit(c, start.marks)
      requires i < |names| && forall j, k :: 0 <= j < k < |names| ==> names[j] != names[k]
      requires forall n :: n in names ==> c.Legacy() + (r + [n]) in start.fs
      requires Merging(start, Now(), r, names, i, depth)
      modifies this
      ensures Valid()
      ensures Merging(start, Now(), r, names, i + 1, depth)
      decreases depth + 1 - |src|, 0
    {
      var n := names[i];
      ghost var before := Now();
      ChildPaths(c.Legacy(), r, n);
      ChildPaths(c.root, r, n);
      moved := MergeEntry(src + [n], dst + [n], r + [n], depth);
      MergingSteps(start, before, Now(), r, names, i, depth);
    }

    /** The loop over a directory's entries, and the pruning after it. Returns how many entries were moved. */
    method MergeDirectory(src: Path, dst: Path, ghost r: Path, ghost depth: nat) returns (count: nat)
      requires Valid()
      requires src == c.Legacy() + r && dst == c.root + r
      requires IsDir(fs, src) && IsDir(fs, dst)
      requires Bounded(c, fs, depth)
      requires !faults && SeesEntries(c) ==> DirsMeet(c, fs, r)
      modifies this
      ensures Valid()
      ensures Done(c, !faults, old(Now()), Now(), {r}, depth)
      ensures !faults && SeesEntries(c) && NotNested(c, old(fs)) && (r == [] || Met(c, old(fs), r)) ==>
                Follows(c, old(Now()), Now(), {r})
      decreases depth + 1 - |src|, 1
    {
      count := 0;
      var names := ReadDir(src);
      ghost var start := Now();
      assert forall n :: src + [n] == c.Legacy() + (r + [n]);
      MergingStarts(start, r, names, depth);
      for i := 0 to |names|
        invariant Valid()
        invariant Merging(start, Now(), r, names, i, depth)
      {
        var moved := MergeOneOf(src, dst, names, i, start, r, depth);
        if moved {
          count := count + 1;
        }
      }
      PruneMerged(start, src, names, r, depth);
    }

    /** The merged-away directory goes once every entry has. */
    method PruneMerged(ghost start: Store, src: Path, ghost names: seq<string>, ghost r: Path, ghost depth: nat)
      requires Valid()
      requires src == c.Legacy() + r
      requires WellFormed(start.fs) && MarksFit(c, start.marks)
      requires Merging(start, Now(), r, names, |names|, depth)
      requires !faults && SeesEntries(c) ==>
                 DirsMeet(c, start.fs, r) && forall n :: c.Legacy() + (r + [n]) in start.fs <==> n in names
      modifies this`fs
      ensures Valid()
      ensures Done(c, !faults, start, Now(), {r}, depth)
      ensures !faults && SeesEntries(c) && NotNested(c, start.fs) && (r == [] || Met(c, start.fs, r)) ==>
                Follows(c, start, Now(), {r})
    {
      assert names[..|names|] == names;
      ghost var merged := Now();
      PruneIfEmpty(src);
      DoneDir(c, !faults, start, merged, Now(), r, names, depth);
    }

    /** There is a `.lfbridge/` to merge, and none inside it. */
    ghost predicate Proceeds(fs: Tree) {
      NotNested(c, fs) && IsDir(fs, c.Legacy())
    }

    /** Migrate the storage. Returns how many entries of `.lfbridge/` were moved out. */
    method MigrateOne() returns (count: nat)
      requires Valid()
      modifies this
      ensures Valid()
      ensures !IsDir(old(fs), c.Legacy()) ==> fs == old(fs) && conflicts == old(conflicts) && count == 0
      ensures Unclouded(c, old(fs), {[]}) && Solo(c, old(fs)) ==>
                Safe(c, old(fs), fs) && (NotNested(c, old(fs)) ==> FacesKept(c, old(fs), fs))
      ensures NothingHidden(c, old(fs)) && Solo(c, old(fs)) ==> Safe(c, old(fs), fs)
      ensures !faults && SeesEntries(c) && Proceeds(old(fs)) && Costs(c, old(Now())) ==> !Safe(c, old(fs), fs)
      ensures !faults && SeesEntries(c) && Proceeds(old(fs)) && AllIndependent(c, old(Now())) ==>
                (Safe(c, old(fs), fs) <==> !Costs(c, old(Now())))
      ensures !faults && c.blind == {} && Proceeds(old(fs)) ==> Run(c, old(Now()), Now())
      ensures !faults && c.blind == {} && Proceeds(old(fs)) ==>
                && (forall r, t: Path {:trigger c.root + r + t} :: Ends(c, old(fs), r) && c.root + r !in old(fs) ==>
                      (c.root + r + t in fs <==> c.Legacy() + r + t in old(fs))
                      && (c.root + r + t in fs ==> fs[c.root + r + t] == old(fs)[c.Legacy() + r + t]))
                && (forall r :: Loses(c, old(Now()), r) && Independent(c, old(Now()), r) && Placed(c, old(fs), r) ==>
                      exists n: nat :: n < SLOTS && c.Slot(r, n) !in old(fs) && c.Slot(r, n) in fs
                                       && fs[c.Slot(r, n)] == old(fs)[c.Legacy() + r])
      ensures !faults && c.blind == {} && Proceeds(old(fs)) && AllIndependent(c, old(Now())) ==>
                && (c.Legacy() !in fs <==> forall r :: Loses(c, old(Now()), r) ==> Placed(c, old(fs), r))
                && (forall p :: c.InLegacy(p) ==> (p in fs <==> p in old(fs) && WithStuck(c, old(Now()), p)))
    {
      count := 0;
      var legacy := c.Legacy();
      ghost var start := Now();
      SafeIsReflexive(c, fs);
      var there := StatOrNull(legacy);
      if there != Some(Dir) {
        return;
      }
      ghost var depth := Depth(fs);
      assert legacy + [] == legacy && c.root + [] == c.root;
      count := MergeDirectory(legacy, c.root, [], depth);
      Concluded(start, Now(), depth);
    }

    /** What the merge of all of `.lfbridge/` comes to. */
    lemma {:induction false} Concluded(a: Store, b: Store, depth: nat)
      requires c.Valid() && WellFormed(a.fs) && WellFormed(b.fs) && IsDir(a.fs, c.Legacy()) && IsDir(a.fs, c.root)
      requires Done(c, !faults, a, b, {[]}, depth)
      requires !faults && SeesEntries(c) && NotNested(c, a.fs) ==> Follows(c, a, b, {[]})
      ensures Unclouded(c, a.fs, {[]}) && Solo(c, a.fs) ==>
                Safe(c, a.fs, b.fs) && (NotNested(c, a.fs) ==> FacesKept(c, a.fs, b.fs))
      ensures NothingHidden(c, a.fs) && Solo(c, a.fs) ==> Safe(c, a.fs, b.fs)
      ensures !faults && SeesEntries(c) && NotNested(c, a.fs) && Costs(c, a) ==> !Safe(c, a.fs, b.fs)
      ensures !faults && SeesEntries(c) && NotNested(c, a.fs) && AllIndependent(c, a) ==>
                (Safe(c, a.fs, b.fs) <==> !Costs(c, a))
      ensures !faults && c.blind == {} && NotNested(c, a.fs) ==> Run(c, a, b)
      ensures !faults && c.blind == {} && NotNested(c, a.fs) ==>
                && (forall r, t: Path {:trigger c.root + r + t} :: Ends(c, a.fs, r) && c.root + r !in a.fs ==>
                      (c.root + r + t in b.fs <==> c.Legacy() + r + t in a.fs)
                      && (c.root + r + t in b.fs ==> b.fs[c.root + r + t] == a.fs[c.Legacy() + r + t]))
                && (forall r :: Loses(c, a, r) && Independent(c, a, r) && Placed(c, a.fs, r) ==>
                      exists n: nat :: n < SLOTS && c.Slot(r, n) !in a.fs && c.Slot(r, n) in b.fs
                                       && b.fs[c.Slot(r, n)] == a.fs[c.Legacy() + r])
      ensures !faults && c.blind == {} && NotNested(c, a.fs) && AllIndependent(c, a) ==>
                && (c.Legacy() !in b.fs <==> forall r :: Loses(c, a, r) ==> Placed(c, a.fs, r))
                && (forall p :: c.InLegacy(p) ==> (p in b.fs <==> p in a.fs && WithStuck(c, a, p)))
    {
      if NothingHidden(c, a.fs) {
        NothingHiddenIsUnclouded(c, a.fs);
      }
      if !faults && SeesEntries(c) && NotNested(c, a.fs) {
        if Costs(c, a) {
          HiddenIsClobbered(c, a, b);
        }
        if AllIndependent(c, a) {
          SafeIffNothingCosts(c, a, b);
        }
        if c.blind == {} {
          assert c.Legacy() + [] == c.Legacy() && c.root + [] == c.root;
          assert Run(c, a, b);
          WhereTheyRest(a, b);
          if AllIndependent(c, a) {
            GoneIffAllPlaced(c, a, b);
            forall p | c.InLegacy(p)
              ensures p in b.fs <==> p in a.fs && WithStuck(c, a, p)
            {
              ExactlyStuckIsLeft(c, a, b, p);
            }
          }
        }
      }
    }

    lemma {:induction false} WhereTheyRest(a: Store, b: Store)
      requires c.Valid() && Run(c, a, b)
      ensures forall r, t: Path {:trigger c.root + r + t} :: Ends(c, a.fs, r) && c.root + r !in a.fs ==>
                (c.root + r + t in b.fs <==> c.Legacy() + r + t in a.fs)
                && (c.root + r + t in b.fs ==> b.fs[c.root + r + t] == a.fs[c.Legacy() + r + t])
      ensures forall r :: Loses(c, a, r) && Independent(c, a, r) && Placed(c, a.fs, r) ==>
                exists n: nat :: n < SLOTS && c.Slot(r, n) !in a.fs && c.Slot(r, n) in b.fs
                                 && b.fs[c.Slot(r, n)] == a.fs[c.Legacy() + r]
    {
      forall r, t: Path | Ends(c, a.fs, r) && c.root + r !in a.fs
        ensures c.root + r + t in b.fs <==> c.Legacy() + r + t in a.fs
        ensures c.root + r + t in b.fs ==> b.fs[c.root + r + t] == a.fs[c.Legacy() + r + t]
      {
        FreeEntriesMove(c, a, b, r, t);
      }
      forall r | Loses(c, a, r) && Independent(c, a, r) && Placed(c, a.fs, r)
        ensures exists n: nat :: n < SLOTS && c.Slot(r, n) !in a.fs && c.Slot(r, n) in b.fs
                                 && b.fs[c.Slot(r, n)] == a.fs[c.Legacy() + r]
      {
        var n := LosersArePreserved(c, a, b, r);
      }
    }

    /** A second run changes no file, whatever the first one had to leave. */
    method MigrateTwice() returns (ghost once: Tree, second: nat)
      requires Valid() && !faults && c.blind == {} && NotNested(c, fs)
      modifies this
      ensures Valid() && Safe(c, old(fs), fs)
      ensures IsDir(old(fs), c.Legacy()) && AllIndependent(c, old(Now())) ==>
                (c.Legacy() !in once <==> forall r :: Loses(c, old(Now()), r) ==> Placed(c, old(fs), r))
      ensures fs == once && (c.Legacy() !in once ==> second == 0)
    {
      ghost var a := Now();
      var first := MigrateOne();
      ghost var b := Now();
      once := fs;
      assert c.InLegacy(c.Legacy() + [LFBRIDGE]);
      second := MigrateOne();
      if IsDir(a.fs, c.Legacy()) && IsDir(b.fs, c.Legacy()) {
        SecondRunIsQuiet(c, a, b, Now());
      }
    }
  }
}
