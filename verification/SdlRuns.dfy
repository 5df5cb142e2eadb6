/** What the merge of some entries amounts to in any run, and how the merges of a directory's entries add up. */
module SdlRuns {
  import opened Wrappers
  import opened FileTree
  import opened SdlSafety
  import opened SdlMerge
  import opened SdlOutcome
  import opened SdlCompose
  import opened SdlSteps

  /** These entries have been merged. With `told` set no operation has failed, but for look-ups of blind paths. */
  ghost predicate Done(c: Config, told: bool, a: Store, b: Store, rs: set<Path>, depth: nat)
    requires c.Valid()
  {
    && Confined(c, a.fs, b.fs, rs, depth)
    && (Unclouded(c, a.fs, rs) && Solo(c, a.fs) ==> Kept(c, a.fs, b.fs, rs))
    && (told && SeesEntries(c) && NotNested(c, a.fs) && (forall r :: r in rs ==> Met(c, a.fs, r)) ==>
          Follows(c, a, b, rs))
  }

  lemma {:induction false} DoneNothing(c: Config, told: bool, a: Store, depth: nat)
    requires c.Valid()
    ensures Done(c, told, a, a, {}, depth)
  {
    ConfinedNothing(c, a.fs, {}, depth);
    KeptNothing(c, a.fs, {});
    NothingFollows(c, a);
  }

  lemma {:induction false} NothingFollows(c: Config, a: Store)
    requires c.Valid()
    ensures Follows(c, a, a, {})
  {
    SparedStill(c, a, {});
  }

  lemma {:induction false} UncloudedWithin(c: Config, fs: Tree, rs: set<Path>, tops: set<Path>)
    requires c.Valid() && Unclouded(c, fs, tops)
    requires forall r :: r in rs ==> Below(tops, r)
    ensures Unclouded(c, fs, rs)
  {
    forall r | Below(rs, r)
      ensures Below(tops, r)
    {
      BelowAbove(rs, tops, r);
    }
  }

  lemma {:induction false} SoloNext(c: Config, a: Tree, m: Tree, rs: set<Path>, depth: nat)
    requires c.Valid() && Solo(c, a) && (NotNested(c, a) || c.blind == {})
    requires Confined(c, a, m, rs, depth)
    ensures Solo(c, m)
  {
    if c.blind != {} {
      forall r | IsFile(m, c.Legacy() + r)
        ensures IsFile(a, c.Legacy() + r)
      {
        assert c.InLegacy(c.Legacy() + r);
      }
    }
  }

  /** Neither the entries done so far nor the next one are clouded, if none of them was at the start. */
  lemma {:induction false} UncloudedBoth(c: Config, a: Tree, rs: set<Path>, r: Path)
    requires c.Valid() && Unclouded(c, a, rs + {r})
    ensures Unclouded(c, a, rs) && Unclouded(c, a, {r})
  {
    forall r1 | r1 in rs + {r}
      ensures Below(rs + {r}, r1)
    {
      assert r1 <= r1;
    }
    UncloudedWithin(c, a, rs, rs + {r});
    UncloudedWithin(c, a, {r}, rs + {r});
  }

  lemma {:induction false} UncloudedComes(c: Config, a: Tree, m: Tree, rs: set<Path>, r: Path, depth: nat)
    requires c.Valid() && WellFormed(a) && Unclouded(c, a, {r}) && Solo(c, a)
    requires forall r1 :: r1 in rs + {r} ==> r1 != [] && c.Legacy() + r1 in a
    requires Separate(rs, {r}) && Confined(c, a, m, rs, depth)
    ensures Unclouded(c, m, {r})
  {
    if c.blind != {} {
      assert r in {r} && Below({r}, r);
      forall r1 | r1 in rs + {r}
        ensures r1 != [] && r1[0] != LFBRIDGE
      {
        FirstPart(c, a, r1);
      }
      UncloudedNext(c, a, m, rs, r, depth);
    }
  }

  lemma {:induction false} KeptNext(c: Config, a: Tree, m: Tree, b: Tree, rs: set<Path>, r: Path, depth: nat)
    requires c.Valid() && WellFormed(a)
    requires forall r1 :: r1 in rs + {r} ==> r1 != [] && c.Legacy() + r1 in a
    requires Separate(rs, {r}) && Confined(c, a, m, rs, depth)
    requires Unclouded(c, a, rs) && Solo(c, a) ==> Kept(c, a, m, rs)
    requires Unclouded(c, m, {r}) && Solo(c, m) ==> Kept(c, m, b, {r})
    requires Unclouded(c, a, rs + {r}) && Solo(c, a)
    ensures Kept(c, a, b, rs + {r})
  {
    UncloudedBoth(c, a, rs, r);
    SoloNext(c, a, m, rs, depth);
    UncloudedComes(c, a, m, rs, r, depth);
    assert c.InLegacy(c.Legacy() + [LFBRIDGE]);
    KeptTogether(c, a, m, b, rs, {r});
  }

  lemma {:induction false} MetNext(c: Config, a: Store, m: Store, q: Path, names: seq<string>, i: nat, depth: nat)
    requires c.Valid() && WellFormed(a.fs) && NotNested(c, a.fs)
    requires i < |names| && forall j, k :: 0 <= j < k < |names| ==> names[j] != names[k]
    requires forall n :: n in names ==> c.Legacy() + (q + [n]) in a.fs
    requires Confined(c, a.fs, m.fs, Tops(q, names[..i]), depth)
    ensures Met(c, a.fs, q + [names[i]]) ==> Met(c, m.fs, q + [names[i]])
    ensures NotNested(c, m.fs)
  {
    var rs, r := Tops(q, names[..i]), q + [names[i]];
    TopsGrow(q, names, i);
    forall r1 | r1 in rs + {r}
      ensures r1 != [] && r1[0] != LFBRIDGE
    {
      FirstPart(c, a.fs, r1);
    }
    assert r in {r} && Below({r}, r);
    NotBelowBoth(rs, {r}, r);
    MetElsewhere(c, a.fs, m.fs, rs, r, depth);
    assert c.InLegacy(c.Legacy() + [LFBRIDGE]);
  }

  /** One more entry of a directory is merged. */
  lemma {:induction false} DoneNext(c: Config, told: bool, a: Store, m: Store, b: Store, q: Path, names: seq<string>,
                                    i: nat,
                                    depth: nat)
    requires c.Valid() && WellFormed(a.fs) && WellFormed(m.fs) && MarksFit(c, a.marks)
    requires i < |names| && forall j, k :: 0 <= j < k < |names| ==> names[j] != names[k]
    requires forall n :: n in names ==> c.Legacy() + (q + [n]) in a.fs
    requires Done(c, told, a, m, Tops(q, names[..i]), depth)
    requires Done(c, told, m, b, {q + [names[i]]}, depth)
    ensures Done(c, told, a, b, Tops(q, names[..i + 1]), depth)
  {
    var rs, more, all := Tops(q, names[..i]), {q + [names[i]]}, Tops(q, names[..i + 1]);
    TopsGrow(q, names, i);
    ConfinedTogether(c, a.fs, m.fs, b.fs, rs, more, depth);
    if Unclouded(c, a.fs, all) && Solo(c, a.fs) {
      KeptNext(c, a.fs, m.fs, b.fs, rs, q + [names[i]], depth);
    }
    if told && SeesEntries(c) && NotNested(c, a.fs) && forall r :: r in all ==> Met(c, a.fs, r) {
      MetNext(c, a, m, q, names, i, depth);
      FollowsNext(c, a, m, b, q, names, i, depth);
    }
  }

  // ---- the directory itself ------------------------------------------------------------------------------

  lemma {:induction false} TopsUnderDir(q: Path, names: seq<string>)
    ensures forall r :: r in Tops(q, names) ==> Below({q}, r)
  {
    forall r | r in Tops(q, names)
      ensures Below({q}, r)
    {
      assert q <= r;
      BelowOne(q, r);
    }
  }

  lemma {:induction false} DirConfined(c: Config, a: Tree, m: Tree, b: Tree, q: Path, names: seq<string>, depth: nat)
    requires c.Valid() && Confined(c, a, m, Tops(q, names), depth)
    requires b == m || b == m - {c.Legacy() + q}
    ensures Confined(c, a, b, {q}, depth)
  {
    TopsUnderDir(q, names);
    ConfinedAbove(c, a, m, Tops(q, names), {q}, depth);
    RemovalIsConfined(c, m, q, depth);
    ConfinedNothing(c, m, {q}, depth);
    ConfinedTogether(c, a, m, b, {q}, {q}, depth);
    assert {q} + {q} == {q};
  }

  lemma {:induction false} DirKept(c: Config, a: Tree, m: Tree, b: Tree, q: Path, names: seq<string>)
    requires c.Valid() && WellFormed(m)
    requires IsDir(m, c.Legacy() + q) && IsDir(m, c.root + q)
    requires Kept(c, a, m, Tops(q, names))
    requires NotNested(c, a) ==> NotNested(c, m)
    requires b == m || b == m - {c.Legacy() + q}
    ensures Kept(c, a, b, {q})
  {
    TopsUnderDir(q, names);
    KeptAbove(c, a, m, Tops(q, names), {q});
    KeptNothing(c, m, {q});
    PruneIsKept(c, m, q);
    KeptTogether(c, a, m, b, {q}, {q});
    assert {q} + {q} == {q};
  }

  /** All the entries of a directory are merged, and the directory is pruned if it is found empty. */
  lemma {:induction false} DoneDir(c: Config, told: bool, a: Store, m: Store, b: Store, q: Path, names: seq<string>,
                                   depth: nat)
    requires c.Valid() && WellFormed(a.fs) && WellFormed(m.fs) && MarksFit(c, a.marks) && MarksFit(c, m.marks)
    requires Done(c, told, a, m, Tops(q, names), depth)
    requires IsDir(m.fs, c.Legacy() + q) && IsDir(m.fs, c.root + q)
    requires b.marks == m.marks && (b.fs == m.fs || b.fs == m.fs - {c.Legacy() + q})
    requires told ==> b.fs == PrunedOf(c, m.fs, q)
    requires told && SeesEntries(c) ==>
               DirsMeet(c, a.fs, q) && forall n :: c.Legacy() + (q + [n]) in a.fs <==> n in names
    ensures Done(c, told, a, b, {q}, depth)
    ensures told && SeesEntries(c) && NotNested(c, a.fs) && (q == [] || Met(c, a.fs, q)) ==> Follows(c, a, b, {q})
  {
    DirConfined(c, a.fs, m.fs, b.fs, q, names, depth);
    assert c.InLegacy(c.Legacy() + [LFBRIDGE]);
    if Unclouded(c, a.fs, {q}) && Solo(c, a.fs) {
      TopsUnderDir(q, names);
      UncloudedWithin(c, a.fs, Tops(q, names), {q});
      DirKept(c, a.fs, m.fs, b.fs, q, names);
    }
    if told && SeesEntries(c) && NotNested(c, a.fs) && (q == [] || Met(c, a.fs, q)) {
      forall n | n in names
        ensures Met(c, a.fs, q + [n])
      {
        MetBelow(c, a.fs, q, n);
      }
      DirFollows(c, a, m, b, q, names, depth);
    }
  }

  lemma {:induction false} MetBelow(c: Config, fs: Tree, q: Path, n: string)
    requires q == [] || Met(c, fs, q)
    requires DirsMeet(c, fs, q) && c.Legacy() + (q + [n]) in fs
    ensures Met(c, fs, q + [n])
  {
    forall k | 0 <= k < |q + [n]|
      ensures DirsMeet(c, fs, (q + [n])[..k])
    {
      assert (q + [n])[..k] == if k == |q| then q else q[..k];
    }
  }

  // ---- one entry -----------------------------------------------------------------------------------------

  /** An attempt to move an entry, where its root path is free or looks so. */
  lemma {:induction false} DoneMove(c: Config, told: bool, a: Store, b: Store, r: Path, depth: nat)
    requires c.Valid() && WellFormed(a.fs) && WellFormed(b.fs) && MarksFit(c, a.marks)
    requires r != [] && c.Legacy() + r in a.fs && (c.root + r !in a.fs || c.root + r in c.blind)
    requires b.marks == a.marks
    requires b.fs == a.fs || (&& Renameable(a.fs, c.Legacy() + r, c.root + r)
                              && b.fs == Renamed(a.fs, c.Legacy() + r, c.root + r))
    requires told && SeesEntries(c) && Renameable(a.fs, c.Legacy() + r, c.root + r) ==>
               b.fs == Renamed(a.fs, c.Legacy() + r, c.root + r)
    ensures Done(c, told, a, b, {r}, depth)
  {
    if b.fs == a.fs {
      ConfinedNothing(c, a.fs, {r}, depth);
      KeptNothing(c, a.fs, {r});
    } else {
      MoveIsConfined(c, a.fs, b.fs, r, depth);
      if Unclouded(c, a.fs, {r}) {
        BelowOne(r, r);
        MoveIsKept(c, a.fs, b.fs, r);
      }
    }
    if told && SeesEntries(c) && NotNested(c, a.fs) && Met(c, a.fs, r) {
      MoveFollows(c, a, b, r);
    }
  }

  /** A leftover whose content rests elsewhere is dropped. */
  lemma {:induction false} DoneDrop(c: Config, told: bool, a: Store, b: Store, r: Path, kept: Path, depth: nat)
    requires c.Valid() && WellFormed(a.fs) && WellFormed(b.fs) && MarksFit(c, a.marks)
    requires r != [] && IsFile(a.fs, c.Legacy() + r)
    requires kept != c.Legacy() + r && MayRest(c, c.Legacy() + r, kept) && Keeps(c, a.fs, c.Legacy() + r, a.fs, kept)
    requires b.marks == a.marks && b.fs == a.fs - {c.Legacy() + r}
    requires told && SeesEntries(c) && Met(c, a.fs, r) ==>
               c.Sees(a.fs, c.root + r) && (Duplicate(c, a.fs, r) || Recalled(c, a, r))
    ensures Done(c, told, a, b, {r}, depth)
  {
    RemovalIsConfined(c, a.fs, r, depth);
    DropIsKept(c, a.fs, r, kept);
    if told && SeesEntries(c) && NotNested(c, a.fs) && Met(c, a.fs, r) {
      DropFollows(c, a, b, r);
    }
  }

  /** The loser has been copied to a slot and removed, or is still there. */
  ghost predicate Attempted(c: Config, a: Tree, b: Tree, r: Path, n: nat, target: Option<Path>)
    requires c.Valid() && r != []
  {
    var src, at := c.Legacy() + r, c.Slot(r, n);
    && (forall p :: p != at && p != src ==> Same(a, b, p))
    && (!Same(a, b, at) ==> IsFile(a, src) && !IsDir(a, at))
    && (if target.None? then Same(a, b, src)
        else target == Some(at) && IsFile(a, src) && src !in b && at in b && b[at] == a[src])
  }

  /** What an attempt to quarantine an entry may have changed. */
  ghost predicate Tried(c: Config, a: Tree, b: Tree, r: Path, target: Option<Path>)
    requires c.Valid() && r != []
  {
    var src := c.Legacy() + r;
    && (forall p :: c.root <= p && p != src ==> Same(a, b, p))
    && (src in b ==> Same(a, b, src))
    && (forall p :: IsFile(b, p) && !IsFile(a, p) ==> IsFile(a, src) && exists n: nat :: n < SLOTS && p == c.Slot(r, n))
    && (target.Some? ==>
          c.InQuarantine(target.value) && IsFile(a, src) && target.value in b && b[target.value] == a[src])
    && (Unclouded(c, a, {r}) ==> forall p :: p in a && (p != src || target.None?) ==> p in b && b[p] == a[p])
  }

  /** An attempt to quarantine an entry. */
  lemma {:induction false} DonePut(c: Config, told: bool, a: Store, b: Store, r: Path, target: Option<Path>, depth: nat)
    requires c.Valid() && WellFormed(a.fs) && WellFormed(b.fs) && MarksFit(c, a.marks)
    requires r != [] && Tried(c, a.fs, b.fs, r, target)
    requires told && SeesEntries(c) && Met(c, a.fs, r) ==>
               && Loses(c, a, r) && PutAway(c, a.fs, b.fs, r, target) && Marked(c, b, r) == target
               && OthersMarked(c, a, b, r)
    ensures Done(c, told, a, b, {r}, depth)
  {
    QuarantineIsConfined(c, a.fs, b.fs, r, depth);
    if Unclouded(c, a.fs, {r}) {
      if target.None? {
        GrowthIsKept(c, a.fs, b.fs, r);
      } else {
        QuarantineIsKept(c, a.fs, b.fs, r, target.value);
      }
    }
    if told && SeesEntries(c) && NotNested(c, a.fs) && Met(c, a.fs, r) {
      PutFollows(c, a, b, r, target);
    }
  }
}
