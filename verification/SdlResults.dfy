/** What a whole migration comes to: what it leaves, what a second one changes, and what a hidden file costs. */
module SdlResults {
  import opened Wrappers
  import opened FileTree
  import opened SdlSafety
  import opened SdlMerge
  import opened SdlOutcome
  import opened SdlCompose
  import opened SdlRuns

  /** A loser that cannot be quarantined. */
  ghost predicate Stuck(c: Config, a: Store, r: Path)
    requires c.Valid()
  {
    Loses(c, a, r) && !Placed(c, a.fs, r)
  }

  /** A path at, above or below a loser that cannot be quarantined. */
  ghost predicate WithStuck(c: Config, a: Store, p: Path)
    requires c.Valid()
  {
    exists r :: Stuck(c, a, r) && Comparable(p, c.Legacy() + r)
  }

  /** A migration of the whole of `.lfbridge/` in which no operation fails and every look-up succeeds. */
  ghost predicate Run(c: Config, a: Store, b: Store)
    requires c.Valid()
  {
    && WellFormed(a.fs) && WellFormed(b.fs) && NotNested(c, a.fs)
    && DirsMeet(c, a.fs, [])
    && (exists depth: nat :: Confined(c, a.fs, b.fs, {[]}, depth))
    && Exact(c, a, b, {[]})
  }

  lemma {:induction false} EverythingIsBelow(c: Config)
    ensures forall r :: Below({[]}, r)
    ensures forall p :: c.InLegacy(p) ==> At(c.Legacy(), {[]}, p)
  {
    forall r
      ensures Below({[]}, r)
    {
      BelowOne([], r);
    }
  }

  /** What is at, above or below a loser that stays is still there. */
  lemma {:induction false} LoserStays(c: Config, a: Store, b: Store, r: Path, p: Path)
    requires c.Valid() && Run(c, a, b)
    requires Loses(c, a, r) && !Cleared(b.fs, c.Legacy() + r)
    requires p in a.fs && c.InLegacy(p) && Comparable(p, c.Legacy() + r)
    ensures p in b.fs && b.fs[p] == a.fs[p]
  {
    var src := c.Legacy() + r;
    EverythingIsBelow(c);
    assert Outcome(c, a, b, r);
    assert src <= src;
    assert Same(a.fs, b.fs, src);
    if src <= p {
      assert Same(a.fs, b.fs, p);
    } else {
      assert src[..|p|] == p;
    }
  }

  /** Whatever the losers have to do with each other, a run leaves only losers, with what is above and below them. */
  lemma {:induction false} OnlyLosersAreLeft(c: Config, a: Store, b: Store, p: Path)
    requires c.Valid() && Run(c, a, b) && c.InLegacy(p)
    ensures p in b.fs <==>
            p in a.fs && exists r :: Loses(c, a, r) && c.Legacy() + r in b.fs && Comparable(p, c.Legacy() + r)
    ensures p in b.fs ==> b.fs[p] == a.fs[p]
  {
    EverythingIsBelow(c);
    if p in b.fs {
      assert Held(c, a.fs, b.fs, {[]}, p);
      var r :| Below({[]}, r) && Ends(c, a.fs, r) && c.Legacy() + r in b.fs && Comparable(p, c.Legacy() + r);
      assert c.Legacy() + r <= c.Legacy() + r;
      assert Outcome(c, a, b, r);
      assert Loses(c, a, r);
    }
    if p in a.fs {
      forall r | Loses(c, a, r) && c.Legacy() + r in b.fs && Comparable(p, c.Legacy() + r)
        ensures p in b.fs
      {
        assert c.Legacy() + r <= c.Legacy() + r;
        LoserStays(c, a, b, r, p);
      }
    }
  }

  /** A run leaves exactly the losers that cannot be quarantined, with what is above and below them. */
  lemma {:induction false} ExactlyStuckIsLeft(c: Config, a: Store, b: Store, p: Path)
    requires c.Valid() && Run(c, a, b) && AllIndependent(c, a)
    requires c.InLegacy(p)
    ensures p in b.fs <==> p in a.fs && WithStuck(c, a, p)
    ensures p in b.fs ==> b.fs[p] == a.fs[p]
  {
    EverythingIsBelow(c);
    if p in b.fs {
      assert Held(c, a.fs, b.fs, {[]}, p);
      var r :| Below({[]}, r) && Ends(c, a.fs, r) && c.Legacy() + r in b.fs && Comparable(p, c.Legacy() + r);
      assert c.Legacy() + r <= c.Legacy() + r;
      assert Outcome(c, a, b, r);
      assert Stuck(c, a, r);
    }
    if p in a.fs && WithStuck(c, a, p) {
      var r :| Stuck(c, a, r) && Comparable(p, c.Legacy() + r);
      assert Outcome(c, a, b, r);
      LoserStays(c, a, b, r, p);
    }
  }

  /** `.lfbridge/` goes exactly when every loser can be quarantined. */
  lemma {:induction false} GoneIffAllPlaced(c: Config, a: Store, b: Store)
    requires c.Valid() && Run(c, a, b) && AllIndependent(c, a)
    ensures c.Legacy() !in b.fs <==> forall r :: Loses(c, a, r) ==> Placed(c, a.fs, r)
  {
    ExactlyStuckIsLeft(c, a, b, c.Legacy());
    assert c.Legacy() + [] == c.Legacy();
    forall r | Stuck(c, a, r)
      ensures WithStuck(c, a, c.Legacy())
    {
      assert c.Legacy() <= c.Legacy() + r;
      assert Comparable(c.Legacy(), c.Legacy() + r);
    }
  }

  /** An entry whose root path is free moves there whole; nothing outside `.lfbridge/` changes. */
  lemma {:induction false} FreeEntriesMove(c: Config, a: Store, b: Store, r: Path, t: Path)
    requires c.Valid() && Run(c, a, b)
    requires Ends(c, a.fs, r) && c.root + r !in a.fs
    ensures c.root + r + t in b.fs <==> c.Legacy() + r + t in a.fs
    ensures c.root + r + t in b.fs ==> b.fs[c.root + r + t] == a.fs[c.Legacy() + r + t]
    ensures c.Legacy() + r + t !in b.fs
  {
    EverythingIsBelow(c);
    assert Outcome(c, a, b, r);
    assert c.Legacy() + r <= c.Legacy() + r + t;
  }

  /** A loser that can be quarantined stands there byte for byte, where nothing stood. */
  lemma {:induction false} LosersArePreserved(c: Config, a: Store, b: Store, r: Path) returns (n: nat)
    requires c.Valid() && Run(c, a, b)
    requires Loses(c, a, r) && Independent(c, a, r) && Placed(c, a.fs, r)
    ensures n < SLOTS && c.Slot(r, n) !in a.fs && c.Slot(r, n) in b.fs
    ensures b.fs[c.Slot(r, n)] == a.fs[c.Legacy() + r] && c.Legacy() + r !in b.fs
  {
    EverythingIsBelow(c);
    assert Outcome(c, a, b, r);
    assert c.Legacy() + r <= c.Legacy() + r;
    n :| n < SLOTS && c.Slot(r, n) !in a.fs && c.Slot(r, n) in b.fs && b.fs[c.Slot(r, n)] == a.fs[c.Legacy() + r];
  }

  // ---- a second run --------------------------------------------------------------------------------------

  /** What is left of an entry is a loser that is barred from the quarantine, and has no place on record. */
  lemma {:induction false} LeftIsBarred(c: Config, a: Store, b: Store, r: Path)
    requires c.Valid() && Run(c, a, b)
    requires Ends(c, a.fs, r) && c.Legacy() + r in b.fs
    ensures Loses(c, a, r) && Barred(c, b.fs, r) && Marked(c, b, r).None? && Same(a.fs, b.fs, c.Legacy() + r)
  {
    EverythingIsBelow(c);
    assert c.Legacy() + r <= c.Legacy() + r;
    assert Outcome(c, a, b, r);
    assert Unaltered(a.fs, b.fs, c.Legacy() + r);
  }

  lemma {:induction false} RootsLater(c: Config, a: Store, b: Store, r: Path)
    requires c.Valid() && Run(c, a, b)
    requires r != [] && c.Legacy() + r in a.fs && c.root + r in a.fs
    ensures Same(a.fs, b.fs, c.root + r)
  {
    FirstPart(c, a.fs, r);
  }

  /** What stays is met again by the next run, and loses again. */
  lemma {:induction false} LosesAgain(c: Config, a: Store, b: Store, r: Path)
    requires c.Valid() && Run(c, a, b) && c.blind == {}
    requires Ends(c, a.fs, r) && c.Legacy() + r in b.fs
    ensures Ends(c, b.fs, r) && Loses(c, b, r)
  {
    LeftIsBarred(c, a, b, r);
    RootsLater(c, a, b, r);
    forall k | 0 <= k < |r|
      ensures DirsMeet(c, b.fs, r[..k])
    {
      assert DirsMeet(c, a.fs, r[..k]);
      assert (c.Legacy() + r)[..|c.Legacy()| + k] == c.Legacy() + r[..k];
      if k == 0 {
        assert c.root + r[..k] == c.root && !c.InLegacy(c.root);
      } else {
        RootsLater(c, a, b, r[..k]);
      }
    }
  }

  /** An entry that stayed stays again. */
  lemma {:induction false} StaysAgain(c: Config, a: Store, b: Store, d: Store, r: Path)
    requires c.Valid() && Run(c, a, b) && Run(c, b, d) && c.blind == {}
    requires Ends(c, a.fs, r) && c.Legacy() + r in b.fs
    ensures Loses(c, b, r) && !Cleared(d.fs, c.Legacy() + r)
  {
    LeftIsBarred(c, a, b, r);
    LosesAgain(c, a, b, r);
    EverythingIsBelow(c);
    assert Outcome(c, b, d, r);
  }

  lemma {:induction false} NoMoveAgain(c: Config, a: Store, b: Store, d: Store, p: Path)
    requires c.Valid() && Run(c, a, b) && c.blind == {}
    ensures !Moved(c, b.fs, d.fs, {[]}, p)
  {
    forall r | Ends(c, b.fs, r)
      ensures c.root + r in b.fs
    {
      assert c.InLegacy(c.Legacy() + r);
      LosesAgain(c, a, b, r);
    }
  }

  lemma {:induction false} InDirs(fs: Tree, d: Path, p: Path)
    requires WellFormed(fs) && d in fs && p <= d
    ensures p in fs
  {
    assert p == d[..|p|];
    assert d == d[..|d|];
  }

  lemma {:induction false} NoLeavingsAgain(c: Config, a: Store, b: Store, d: Store, p: Path)
    requires c.Valid() && Run(c, a, b) && Run(c, b, d) && c.blind == {}
    ensures Quarantined(c, b, d, {[]}, p) ==> p in b.fs
  {
    forall r | r != [] && Leaves(c, b, d, r, p)
      ensures p in b.fs
    {
      assert c.InLegacy(c.Legacy() + r);
      StaysAgain(c, a, b, d, r);
      LeftIsBarred(c, a, b, r);
      InDirs(b.fs, SlotDir(c, r), p);
    }
  }

  lemma {:induction false} NothingNewAgain(c: Config, a: Store, b: Store, d: Store, p: Path)
    requires c.Valid() && Run(c, a, b) && Run(c, b, d) && c.blind == {}
    requires p in d.fs
    ensures p in b.fs
  {
    NoMoveAgain(c, a, b, d, p);
    NoLeavingsAgain(c, a, b, d, p);
  }

  /** A second run changes no file, whatever the first one left. */
  lemma {:induction false} SecondRunIsQuiet(c: Config, a: Store, b: Store, d: Store)
    requires c.Valid() && Run(c, a, b) && Run(c, b, d) && c.blind == {}
    ensures d.fs == b.fs
  {
    EverythingIsBelow(c);
    forall p
      ensures Same(b.fs, d.fs, p)
    {
      if p in d.fs {
        NothingNewAgain(c, a, b, d, p);
      }
      if p in b.fs && c.InLegacy(p) {
        var r :| Below({[]}, r) && Ends(c, a.fs, r) && c.Legacy() + r in b.fs && Comparable(p, c.Legacy() + r);
        StaysAgain(c, a, b, d, r);
        LoserStays(c, b, d, r, p);
      }
    }
    SameEverywhere(b.fs, d.fs);
  }

  lemma {:induction false} SameEverywhere(f: Tree, g: Tree)
    requires forall p :: Same(f, g, p)
    ensures g == f
  {
    forall p
      ensures p in f <==> p in g
      ensures p in f ==> g[p] == f[p]
    {
      assert Same(f, g, p);
    }
    assert g.Keys == f.Keys;
  }

  // ---- failing look-ups ----------------------------------------------------------------------------------

  /** A file, other than an identical one, that a failing look-up hides from the entry that is put in its place. */
  ghost predicate Costs(c: Config, a: Store)
    requires c.Valid()
  {
    || (exists r :: Overwrites(c, a.fs, r) && a.fs[c.root + r] != a.fs[c.Legacy() + r])
    || (exists r, n: nat :: Wipes(c, a, r, n))
  }

  /** A run that meets a hidden file clobbers it. */
  lemma {:induction false} HiddenIsClobbered(c: Config, a: Store, b: Store)
    requires c.Valid() && WellFormed(a.fs) && NotNested(c, a.fs)
    requires Exposed(c, a, b, {[]}) && Costs(c, a)
    ensures !Safe(c, a.fs, b.fs)
  {
    EverythingIsBelow(c);
    if r :| Overwrites(c, a.fs, r) && a.fs[c.root + r] != a.fs[c.Legacy() + r] {
      FirstPart(c, a.fs, r);
      assert b.fs[c.root + r] == a.fs[c.Legacy() + r];
    } else {
      var r, n: nat :| Wipes(c, a, r, n);
      SlotIsOutside(c, r, n);
      assert !IsFile(b.fs, c.Slot(r, n));
    }
  }

  lemma {:induction false} NothingTaken(c: Config, a: Store, rs: set<Path>, p: Path)
    requires c.Valid() && p in a.fs && !Costs(c, a)
    ensures !Taken(c, a, rs, p)
  {
  }

  /** What a hidden file costs is all that a run loses. */
  lemma {:induction false} SafeUnlessCosts(c: Config, a: Store, b: Store)
    requires c.Valid() && IsDir(a.fs, c.Legacy())
    requires Spared(c, a, b, {[]}) && AllIndependent(c, a) && !Costs(c, a)
    ensures Safe(c, a.fs, b.fs)
  {
    forall p | p in a.fs && !c.InLegacy(p)
      ensures p in b.fs && b.fs[p] == a.fs[p]
    {
      NothingTaken(c, a, {[]}, p);
    }
    forall p | IsFile(a.fs, p) && c.InLegacy(p)
      ensures Survives(c, a.fs, b.fs, p)
    {
      assert RestsSeen(c, a.fs, b.fs, p);
      var q :| MayRest(c, p, q) && Keeps(c, a.fs, p, b.fs, q);
    }
  }

  /** A run in which nothing but look-ups fails is safe exactly when it meets no hidden file to clobber. */
  lemma {:induction false} SafeIffNothingCosts(c: Config, a: Store, b: Store)
    requires c.Valid() && WellFormed(a.fs) && NotNested(c, a.fs) && IsDir(a.fs, c.Legacy())
    requires Exposed(c, a, b, {[]}) && Spared(c, a, b, {[]}) && AllIndependent(c, a)
    ensures Safe(c, a.fs, b.fs) <==> !Costs(c, a)
  {
    if Costs(c, a) {
      HiddenIsClobbered(c, a, b);
    } else {
      SafeUnlessCosts(c, a, b);
    }
  }

  /** No path outside `.lfbridge/` whose look-up fails is taken. */
  ghost predicate NothingHidden(c: Config, fs: Tree)
    requires c.Valid()
  {
    (NotNested(c, fs) || c.blind == {}) && forall p :: p in c.blind && p in fs ==> c.InLegacy(p)
  }

  lemma {:induction false} NothingHiddenIsUnclouded(c: Config, fs: Tree)
    requires c.Valid() && WellFormed(fs) && NothingHidden(c, fs)
    ensures Unclouded(c, fs, {[]})
  {
    forall r | r != [] && IsFile(fs, c.Legacy() + r) && c.root + r in c.blind
      ensures c.root + r !in fs
    {
      FirstPart(c, fs, r);
    }
    forall r, n: nat | r != [] && c.Slot(r, n) in c.blind
      ensures c.Slot(r, n) !in fs
    {
      SlotIsOutside(c, r, n);
    }
  }

  // ---- two failing inputs --------------------------------------------------------------------------------

  /** A storage whose file `a` differs from the leftover `a`, with an older leftover `a` in its quarantine. */
  function Example(): (fs: Tree)
    ensures WellFormed(fs)
    ensures ExamplePaths(fs) && ["sdl", LFBRIDGE, LFBRIDGE] !in fs
    ensures ["sdl", "a"] in fs && fs[["sdl", "a"]] == File([1])
    ensures ["sdl", LFBRIDGE, "a"] in fs && fs[["sdl", LFBRIDGE, "a"]] == File([2])
    ensures ["state", "migration_conflicts", "sdl", "a"] in fs
    ensures fs[["state", "migration_conflicts", "sdl", "a"]] == File([3])
  {
    var fs := map[[] := Dir,
                  ["sdl"] := Dir,
                  ["sdl", "a"] := File([1]),
                  ["sdl", LFBRIDGE] := Dir,
                  ["sdl", LFBRIDGE, "a"] := File([2]),
                  ["state"] := Dir,
                  ["state", "migration_conflicts"] := Dir,
                  ["state", "migration_conflicts", "sdl"] := Dir,
                  ["state", "migration_conflicts", "sdl", "a"] := File([3])];
    assert ["sdl", LFBRIDGE, LFBRIDGE] !in fs by {
      assert ["sdl", LFBRIDGE, LFBRIDGE][2] != ["sdl", LFBRIDGE, "a"][2];
    }
    assert WellFormed(fs) by {
      forall p, k | p in fs && 0 <= k < |p|
        ensures p[..k] in fs && fs[p[..k]] == Dir
      {
        ExampleIsWellFormed(fs, p, k);
      }
    }
    fs
  }

  ghost predicate ExamplePaths(fs: Tree) {
    && IsDir(fs, []) && IsDir(fs, ["sdl"]) && IsDir(fs, ["sdl", LFBRIDGE]) && IsDir(fs, ["state"])
    && IsDir(fs, ["state", "migration_conflicts"]) && IsDir(fs, ["state", "migration_conflicts", "sdl"])
  }

  lemma {:induction false} ExampleIsWellFormed(fs: Tree, p: Path, k: nat)
    requires ExamplePaths(fs) && k < |p| <= 4
    requires p <= ["sdl", "a"] || p <= ["sdl", LFBRIDGE, "a"] || p <= ["state", "migration_conflicts", "sdl", "a"]
    ensures p[..k] in fs && fs[p[..k]] == Dir
  {
    var q := p[..k];
    assert q == [] || q == ["sdl"] || q == ["sdl", LFBRIDGE] || q == ["state"] || q == ["state", "migration_conflicts"]
        || q == ["state", "migration_conflicts", "sdl"];
  }

  function ExampleConfig(blind: set<Path>): (c: Config)
    ensures c.Valid()
  {
    assert "sdl"[1] != "state"[1];
    assert ["sdl"][0] != ["state"][0];
    Config(["sdl"], ["state"], _ => None, blind)
  }

  lemma {:induction false} ExamplePath(c: Config)
    requires c.root == ["sdl"] && c.state == ["state"]
    ensures c.Legacy() == ["sdl", LFBRIDGE] && c.Legacy() + ["a"] == ["sdl", LFBRIDGE, "a"]
    ensures c.Legacy() + [LFBRIDGE] == ["sdl", LFBRIDGE, LFBRIDGE] && c.root + ["a"] == ["sdl", "a"]
    ensures c.Slot(["a"], 0) == ["state", "migration_conflicts", "sdl", "a"]
    ensures !c.InLegacy(["sdl", "a"]) && !c.InLegacy(["state", "migration_conflicts", "sdl", "a"])
  {
    assert LFBRIDGE[0] != "a"[0] && "sdl"[1] != "state"[1];
    Differ(c.Legacy(), ["sdl", "a"], 1);
    Differ(c.Legacy(), ["state", "migration_conflicts", "sdl", "a"], 0);
  }

  lemma {:induction false} Differ(p: Path, q: Path, k: nat)
    requires k < |p| && k < |q| && p[k] != q[k]
    ensures !(p <= q)
  {
  }

  /** A failing look-up of a root path: the run puts the leftover in place of the storage's own file. */
  lemma {:induction false} RootLookUpCosts()
    ensures var c, s := ExampleConfig({["sdl", "a"]}), Store(Example(), map[]);
            && NotNested(c, s.fs) && SeesEntries(c) && IsDir(s.fs, c.Legacy()) && IsDir(s.fs, c.root)
            && Overwrites(c, s.fs, ["a"]) && Costs(c, s)
  {
    var c, s := ExampleConfig({["sdl", "a"]}), Store(Example(), map[]);
    ExamplePath(c);
    assert ["a"][..0] == [] && c.Legacy() + [] == c.Legacy() && c.root + [] == c.root;
    assert DirsMeet(c, s.fs, ["a"][..0]);
    assert Overwrites(c, s.fs, ["a"]) && s.fs[c.root + ["a"]] != s.fs[c.Legacy() + ["a"]];
  }

  lemma {:induction false} WipeCosts(c: Config, s: Store, r: Path, n: nat)
    requires c.Valid() && Wipes(c, s, r, n)
    ensures Costs(c, s)
  {
  }

  /** A failing look-up in the quarantine: the run removes the loser that an earlier one preserved there. */
  lemma {:induction false} SlotLookUpCosts()
    ensures var c, s := ExampleConfig({["state", "migration_conflicts", "sdl", "a"]}), Store(Example(), map[]);
            && NotNested(c, s.fs) && SeesEntries(c) && IsDir(s.fs, c.Legacy()) && IsDir(s.fs, c.root)
            && Wipes(c, s, ["a"], 0) && Costs(c, s)
  {
    var c, s := ExampleConfig({["state", "migration_conflicts", "sdl", "a"]}), Store(Example(), map[]);
    ExamplePath(c);
    assert ["a"][..0] == [] && c.Legacy() + [] == c.Legacy() && c.root + [] == c.root;
    assert DirsMeet(c, s.fs, ["a"][..0]);
    WipeCosts(c, s, ["a"], 0);
  }

  // ---- two losers, one slot ------------------------------------------------------------------------------

  /** Two leftovers, `a` and `a.1`, whose slots overlap: `a.1` is also the second slot of `a`, whose first is taken. */
  function Overlapping(): (fs: Tree)
    ensures ["sdl", LFBRIDGE, "a"] in fs && fs[["sdl", LFBRIDGE, "a"]] == File([2])
    ensures ["sdl", LFBRIDGE, "a.1"] in fs && fs[["sdl", LFBRIDGE, "a.1"]] == File([5])
    ensures ["state", "migration_conflicts", "sdl", "a"] in fs && ["state", "migration_conflicts", "sdl", "a.1"] !in fs
    ensures ["sdl", LFBRIDGE, LFBRIDGE] !in fs
    ensures forall p :: p in fs && fs[p] == File([2]) ==> p == ["sdl", LFBRIDGE, "a"]
  {
    map[[] := Dir,
        ["sdl"] := Dir,
        ["sdl", "a"] := File([1]),
        ["sdl", "a.1"] := File([4]),
        ["sdl", LFBRIDGE] := Dir,
        ["sdl", LFBRIDGE, "a"] := File([2]),
        ["sdl", LFBRIDGE, "a.1"] := File([5]),
        ["state"] := Dir,
        ["state", "migration_conflicts"] := Dir,
        ["state", "migration_conflicts", "sdl"] := Dir,
        ["state", "migration_conflicts", "sdl", "a"] := File([3])]
  }

  lemma {:induction false} OverlappingSlots(c: Config)
    requires c.root == ["sdl"] && c.state == ["state"]
    ensures c.Slot(["a"], 1) == c.Slot(["a.1"], 0) == ["state", "migration_conflicts", "sdl", "a.1"]
    ensures c.Legacy() + ["a"] == ["sdl", LFBRIDGE, "a"] && c.Legacy() + ["a.1"] == ["sdl", LFBRIDGE, "a.1"]
    ensures !c.InLegacy(["state", "migration_conflicts", "sdl", "a.1"])
  {
    assert Decimal(1) == "1" && "a" + "." + "1" == "a.1";
    assert "sdl"[1] != "state"[1];
    Differ(c.Legacy(), ["state", "migration_conflicts", "sdl", "a.1"], 0);
  }

  /**
   Why losers must not share a slot whose look-up fails at times: nothing is hidden at the start, the first loser is
   put there by look-ups that succeed, and one that fails lets the second be put in its place.
   */
  lemma {:induction false} SharedSlotLosesALoser()
    ensures var slot := ["state", "migration_conflicts", "sdl", "a.1"];
            var c, a := ExampleConfig({slot}), Overlapping();
            var m := (a - {c.Legacy() + ["a"]})[slot := File([2])];
            var b := (m - {c.Legacy() + ["a.1"]})[slot := File([5])];
            && NothingHidden(c, a) && !Solo(c, a)
            && Attempted(c, a, m, ["a"], 1, Some(slot)) && Attempted(c, m, b, ["a.1"], 0, Some(slot))
            && !Safe(c, a, b)
  {
    var slot := ["state", "migration_conflicts", "sdl", "a.1"];
    var c, a := ExampleConfig({slot}), Overlapping();
    OverlappingSlots(c);
    var m := (a - {c.Legacy() + ["a"]})[slot := File([2])];
    FirstTakesSlot(c, a, m, slot);
    SecondTakesSlot(c, a, m, (m - {c.Legacy() + ["a.1"]})[slot := File([5])], slot);
  }

  lemma {:induction false} FirstTakesSlot(c: Config, a: Tree, m: Tree, slot: Path)
    requires c == ExampleConfig({slot}) && a == Overlapping() && slot == ["state", "migration_conflicts", "sdl", "a.1"]
    requires c.Slot(["a"], 1) == c.Slot(["a.1"], 0) == slot && !c.InLegacy(slot)
    requires c.Legacy() + ["a"] == ["sdl", LFBRIDGE, "a"] && c.Legacy() + ["a.1"] == ["sdl", LFBRIDGE, "a.1"]
    requires m == (a - {c.Legacy() + ["a"]})[slot := File([2])]
    ensures NothingHidden(c, a) && !Solo(c, a) && Attempted(c, a, m, ["a"], 1, Some(slot))
  {
    assert "a" != "a.1";
    assert ["a"][0] != ["a.1"][0];
    assert c.Legacy() + [LFBRIDGE] == ["sdl", LFBRIDGE, LFBRIDGE];
  }

  lemma {:induction false} SecondTakesSlot(c: Config, a: Tree, m: Tree, b: Tree, slot: Path)
    requires c == ExampleConfig({slot}) && a == Overlapping() && slot == c.Slot(["a.1"], 0) && !c.InLegacy(slot)
    requires c.Legacy() + ["a"] == ["sdl", LFBRIDGE, "a"] && c.Legacy() + ["a.1"] == ["sdl", LFBRIDGE, "a.1"]
    requires m == (a - {c.Legacy() + ["a"]})[slot := File([2])]
    requires b == (m - {c.Legacy() + ["a.1"]})[slot := File([5])]
    ensures Attempted(c, m, b, ["a.1"], 0, Some(slot)) && !Safe(c, a, b)
  {
    var src := c.Legacy() + ["a"];
    assert "a" != "a.1";
    assert IsFile(a, src) && c.InLegacy(src);
    forall q
      ensures !Keeps(c, a, src, b, q)
    {
      assert q in b ==> b[q] != File([2]);
    }
    assert !Survives(c, a, b, src);
  }
}
