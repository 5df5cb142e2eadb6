/** The outcome of each step of a run without failing operations, and of a directory whose entries are done. */
module SdlSteps {
  import opened Wrappers
  import opened FileTree
  import opened SdlSafety
  import opened SdlMerge
  import opened SdlOutcome
  import opened SdlCompose

  /** What a run without failing operations does to these entries. */
  ghost predicate Follows(c: Config, a: Store, b: Store, rs: set<Path>)
    requires c.Valid()
  {
    Exposed(c, a, b, rs) && Spared(c, a, b, rs) && (c.blind == {} ==> Exact(c, a, b, rs))
  }

  /** Below `.lfbridge/` nothing is added, and what meets an entry still there stays. */
  ghost predicate Narrowed(c: Config, a: Tree, b: Tree) {
    && (forall p :: p in b && c.InLegacy(p) ==> p in a && b[p] == a[p])
    && (forall q {:trigger c.root + q} :: c.Legacy() + q in b ==> Same(a, b, c.root + q))
  }

  /** Outside `.lfbridge/` nothing is lost either. */
  ghost predicate Shrunk(c: Config, a: Tree, b: Tree) {
    Narrowed(c, a, b) && forall p :: p in a && !c.InLegacy(p) ==> p in b && b[p] == a[p]
  }

  lemma {:induction false} EndsBack(c: Config, a: Tree, b: Tree, r: Path)
    requires Narrowed(c, a, b)
    ensures Ends(c, b, r) ==> Ends(c, a, r)
  {
    if Ends(c, b, r) {
      forall k | 0 <= k < |r|
        ensures DirsMeet(c, a, r[..k])
      {
        assert DirsMeet(c, b, r[..k]);
        assert c.InLegacy(c.Legacy() + r[..k]);
        assert Same(a, b, c.root + r[..k]);
      }
      assert c.InLegacy(c.Legacy() + r);
      assert Same(a, b, c.root + r);
    }
  }

  lemma {:induction false} LosesBack(c: Config, a: Store, b: Store, r: Path)
    requires c.Valid() && Narrowed(c, a.fs, b.fs) && MarksFit(c, a.marks)
    requires forall p :: p in a.fs && !(c.root <= p) && p !in c.blind ==> p in b.fs && b.fs[p] == a.fs[p]
    requires Marked(c, a, r) == Marked(c, b, r)
    ensures Loses(c, b, r) ==> Loses(c, a, r)
  {
    if Loses(c, b, r) {
      EndsBack(c, a.fs, b.fs, r);
      assert c.InLegacy(c.Legacy() + r);
      assert Same(a.fs, b.fs, c.root + r);
      MarkIsOutside(c, a, r);
    }
  }

  /** Nothing below an entry that is dealt with as a whole is met. */
  lemma {:induction false} EndsAlone(c: Config, fs: Tree, r: Path, r1: Path)
    requires Ends(c, fs, r) && Below({r}, r1) && Met(c, fs, r1)
    ensures r1 == r
  {
    BelowOne(r, r1);
    assert r1[..|r|] == r;
  }

  // ---- one entry -----------------------------------------------------------------------------------------

  lemma {:induction false} ExposedOne(c: Config, a: Store, b: Store, r: Path)
    requires c.Valid() && Ends(c, a.fs, r)
    requires OthersMarked(c, a, b, r)
    requires forall p :: p in a.fs && !(c.root <= p) && (p !in c.blind || a.fs[p] == Dir) ==>
               p in b.fs && b.fs[p] == a.fs[p]
    requires forall p :: p in c.blind && !(c.root <= p) && !IsFile(a.fs, p) ==> !IsFile(b.fs, p)
    requires Overwrites(c, a.fs, r) ==> c.root + r in b.fs && b.fs[c.root + r] == a.fs[c.Legacy() + r]
    requires forall n: nat :: Wipes(c, a, r, n) ==> !IsFile(b.fs, c.Slot(r, n))
    ensures Exposed(c, a, b, {r})
  {
    AllAtOne(r);
    forall r1 | Below({r}, r1) && Met(c, a.fs, r1)
      ensures r1 == r
    {
      EndsAlone(c, a.fs, r, r1);
    }
  }

  lemma {:induction false} ShrunkOutside(c: Config, a: Tree, b: Tree)
    requires Shrunk(c, a, b)
    ensures forall p :: p in a && !(c.root <= p) ==> p in b && b[p] == a[p]
  {
    forall p | c.InLegacy(p)
      ensures c.root <= p
    {
      LegacyIsInRoot(c, p);
    }
  }

  /** An entry dealt with as a whole spares what it should. */
  lemma {:induction false} SparedOne(c: Config, a: Store, b: Store, r: Path)
    requires c.Valid() && Ends(c, a.fs, r) && MarksFit(c, a.marks)
    requires OthersMarked(c, a, b, r) && Narrowed(c, a.fs, b.fs)
    requires forall p :: p in a.fs && !(c.root <= p) && p !in c.blind ==> p in b.fs && b.fs[p] == a.fs[p]
    requires AllIndependent(c, a) ==>
               forall p :: p in a.fs && !c.InLegacy(p) && !Same(a.fs, b.fs, p) ==> Taken(c, a, {r}, p)
    requires forall p :: IsFile(a.fs, p) && c.InLegacy(p) && p != c.Legacy() ==> RestsSeen(c, a.fs, b.fs, p)
    requires forall p :: p in b.fs && p !in a.fs && !(c.root <= p) ==> Deposited(c, a, b.fs, {r}, p)
    requires Loses(c, b, r) ==> Loses(c, a, r) && (Marked(c, b, r) == Marked(c, a, r) || Marked(c, b, r).None?)
    ensures Spared(c, a, b, {r})
  {
    forall r1 | Loses(c, b, r1)
      ensures Loses(c, a, r1) && (Marked(c, b, r1) == Marked(c, a, r1) || Marked(c, b, r1).None?)
    {
      if r1 != r {
        assert (c.Legacy() + r1)[|c.Legacy()|..] == r1 && (c.Legacy() + r)[|c.Legacy()|..] == r;
        LosesBack(c, a, b, r1);
      }
    }
  }

  lemma {:induction false} StaysSeen(c: Config, a: Tree, b: Tree, p: Path)
    requires c.Valid() && c.InLegacy(p) && IsFile(a, p) && Same(a, b, p)
    ensures RestsSeen(c, a, b, p)
  {
    assert MayRest(c, p, p) && Keeps(c, a, p, b, p);
  }

  lemma {:induction false} SparedStill(c: Config, a: Store, rs: set<Path>)
    requires c.Valid()
    ensures Spared(c, a, a, rs)
  {
    forall p | IsFile(a.fs, p) && c.InLegacy(p)
      ensures RestsSeen(c, a.fs, a.fs, p)
    {
      StaysSeen(c, a.fs, a.fs, p);
    }
  }

  lemma {:induction false} StaysHeld(c: Config, a: Tree, b: Tree, r: Path, p: Path)
    requires WellFormed(b) && Ends(c, a, r) && p in b && At(c.Legacy(), {r}, p)
    ensures Held(c, a, b, {r}, p)
  {
    AtOne(c.Legacy(), r, p);
    BelowOne(r, r);
    var top := c.Legacy() + r;
    assert p[..|top|] == top;
    assert top in b by {
      if |p| == |top| {
        assert p == top;
      }
    }
  }

  lemma {:induction false} OutcomesOne(c: Config, a: Store, b: Store, r: Path)
    requires c.Valid() && Ends(c, a.fs, r) && Outcome(c, a, b, r)
    ensures forall r1 :: Below({r}, r1) && Ends(c, a.fs, r1) ==> Outcome(c, a, b, r1)
  {
    forall r1 | Below({r}, r1) && Ends(c, a.fs, r1)
      ensures r1 == r
    {
      EndsAlone(c, a.fs, r, r1);
    }
  }

  lemma {:induction false} BackOne(c: Config, a: Store, b: Store, r: Path, r1: Path)
    requires c.Valid() && MarksFit(c, a.marks) && Shrunk(c, a.fs, b.fs) && OthersMarked(c, a, b, r)
    requires Loses(c, b, r) ==> Loses(c, a, r)
    ensures (Ends(c, b.fs, r1) ==> Ends(c, a.fs, r1)) && (Loses(c, b, r1) ==> Loses(c, a, r1))
  {
    EndsBack(c, a.fs, b.fs, r1);
    ShrunkOutside(c, a.fs, b.fs);
    if r1 != r {
      assert (c.Legacy() + r1)[|c.Legacy()|..] == r1 && (c.Legacy() + r)[|c.Legacy()|..] == r;
      LosesBack(c, a, b, r1);
    }
  }

  lemma {:induction false} NewOne(c: Config, a: Store, b: Store, r: Path)
    requires c.Valid() && Ends(c, a.fs, r)
    requires forall p :: p in b.fs && p !in a.fs && !(c.root <= p) ==> Leaves(c, a, b, r, p)
    requires forall p :: p in b.fs && p !in a.fs && c.root <= p ==>
               c.root + r !in a.fs && c.root + r <= p && Cleared(b.fs, c.Legacy() + r)
    ensures forall p :: p in b.fs && p !in a.fs && !(c.root <= p) ==> Quarantined(c, a, b, {r}, p)
    ensures forall p :: p in b.fs && p !in a.fs && c.root <= p ==> Moved(c, a.fs, b.fs, {r}, p)
  {
    BelowOne(r, r);
  }

  lemma {:induction false} ExactOne(c: Config, a: Store, b: Store, r: Path)
    requires c.Valid() && WellFormed(b.fs) && MarksFit(c, a.marks)
    requires Ends(c, a.fs, r) && Shrunk(c, a.fs, b.fs)
    requires OthersMarked(c, a, b, r)
    requires Outcome(c, a, b, r)
    requires Loses(c, b, r) ==> Loses(c, a, r)
    requires forall p :: p in b.fs && p !in a.fs && !(c.root <= p) ==> Leaves(c, a, b, r, p)
    requires forall p :: p in b.fs && p !in a.fs && c.root <= p ==>
               c.root + r !in a.fs && c.root + r <= p && Cleared(b.fs, c.Legacy() + r)
    ensures Exact(c, a, b, {r})
  {
    OutcomesOne(c, a, b, r);
    NewOne(c, a, b, r);
    forall p | p in b.fs && At(c.Legacy(), {r}, p)
      ensures Held(c, a.fs, b.fs, {r}, p)
    {
      StaysHeld(c, a.fs, b.fs, r, p);
    }
    forall r1
      ensures (Ends(c, b.fs, r1) ==> Ends(c, a.fs, r1)) && (Loses(c, b, r1) ==> Loses(c, a, r1))
    {
      BackOne(c, a, b, r, r1);
    }
  }

  // ---- the moves -----------------------------------------------------------------------------------------

  lemma {:induction false} MoveNarrows(c: Config, a: Tree, b: Tree, r: Path)
    requires c.Valid() && WellFormed(a) && NotNested(c, a)
    requires r != [] && c.Legacy() + r in a && Renameable(a, c.Legacy() + r, c.root + r)
    requires b == Renamed(a, c.Legacy() + r, c.root + r)
    ensures Narrowed(c, a, b)
    ensures forall p :: c.InLegacy(p) && !(c.Legacy() + r <= p) ==> Same(a, b, p)
  {
    var src, dst := c.Legacy() + r, c.root + r;
    FirstPart(c, a, r);
    assert c.Legacy() <= src;
    forall p | c.InLegacy(p)
      ensures !(dst <= p)
    {
      OutsideStaysOutside(c, dst, p);
    }
    forall q | c.Legacy() + q in b
      ensures Same(a, b, c.root + q)
    {
      SamePrefix(c.root, r, q);
      SamePrefix(c.Legacy(), r, q);
      assert c.InLegacy(c.Legacy() + q);
      assert !(src <= c.root + q) by {
        if c.Legacy() <= src <= c.root + q {
          RootPathInLegacy(c, q);
          FirstPart(c, a, q);
          assert false;
        }
      }
    }
  }

  lemma {:induction false} MoveShrinks(c: Config, a: Tree, b: Tree, r: Path)
    requires c.Valid() && WellFormed(a) && NotNested(c, a)
    requires r != [] && c.Legacy() + r in a && c.root + r !in a
    requires b == Renamed(a, c.Legacy() + r, c.root + r)
    ensures Shrunk(c, a, b)
    ensures Cleared(b, c.Legacy() + r)
    ensures forall p :: p in b && p !in a ==> c.root + r <= p
  {
    var src, dst := c.Legacy() + r, c.root + r;
    MoveNarrows(c, a, b, r);
    FirstPart(c, a, r);
    assert c.Legacy() <= src;
    NothingBelow(a, dst);
    forall p | p in b
      ensures !(src <= p)
    {
      if src <= p {
        OutsideStaysOutside(c, dst, p);
      }
    }
  }

  lemma {:induction false} MoveArrives(c: Config, a: Tree, b: Tree, r: Path)
    requires c.Legacy() + r in a && b == Renamed(a, c.Legacy() + r, c.root + r)
    ensures Arrived(c, a, b, r)
  {
    forall t: Path
      ensures c.root + r + t in b <==> c.Legacy() + r + t in a
      ensures c.root + r + t in b && c.Legacy() + r + t in a ==> b[c.root + r + t] == a[c.Legacy() + r + t]
    {
      assert c.root + r <= c.root + r + t && (c.root + r + t)[|c.root + r|..] == t;
    }
  }

  /** Where a file of `.lfbridge/` rests once an entry has moved to its root path. */
  lemma {:induction false} MoveRests(c: Config, a: Tree, b: Tree, r: Path, p: Path)
    requires c.Valid() && WellFormed(a) && NotNested(c, a)
    requires r != [] && c.Legacy() + r in a && Renameable(a, c.Legacy() + r, c.root + r)
    requires b == Renamed(a, c.Legacy() + r, c.root + r)
    requires IsFile(a, p) && c.InLegacy(p)
    ensures RestsSeen(c, a, b, p)
  {
    if c.Legacy() + r <= p {
      var q := MovedHome(c, r, p);
      assert Keeps(c, a, p, b, q);
    } else {
      MoveNarrows(c, a, b, r);
      StaysSeen(c, a, b, p);
    }
  }

  /** All that a move can take the place of is a file that a failing look-up hides. */
  lemma {:induction false} MoveTakes(c: Config, a: Store, b: Tree, r: Path, p: Path)
    requires c.Valid() && WellFormed(a.fs) && NotNested(c, a.fs)
    requires Met(c, a.fs, r) && !c.Sees(a.fs, c.root + r) && Renameable(a.fs, c.Legacy() + r, c.root + r)
    requires b == Renamed(a.fs, c.Legacy() + r, c.root + r)
    requires p in a.fs && !c.InLegacy(p) && !Same(a.fs, b, p)
    ensures Taken(c, a, {r}, p)
  {
    var src, dst := c.Legacy() + r, c.root + r;
    RenameableIsBare(a.fs, src, dst);
    assert c.Legacy() <= src;
    if !(dst <= p) {
      MoveElsewhere(c, a.fs, r, p);
    }
    assert p == dst && dst <= dst && src + dst[|dst|..] == src;
    BelowOne(r, r);
  }

  lemma {:induction false} MoveSpares(c: Config, a: Store, b: Store, r: Path)
    requires c.Valid() && WellFormed(a.fs) && NotNested(c, a.fs) && MarksFit(c, a.marks)
    requires Met(c, a.fs, r) && !c.Sees(a.fs, c.root + r) && Renameable(a.fs, c.Legacy() + r, c.root + r)
    requires b.marks == a.marks && b.fs == Renamed(a.fs, c.Legacy() + r, c.root + r)
    requires forall p :: !(c.root <= p) ==> Same(a.fs, b.fs, p)
    ensures Spared(c, a, b, {r})
  {
    MoveNarrows(c, a.fs, b.fs, r);
    forall p | p in a.fs && !c.InLegacy(p) && !Same(a.fs, b.fs, p)
      ensures Taken(c, a, {r}, p)
    {
      MoveTakes(c, a, b.fs, r, p);
    }
    forall p | IsFile(a.fs, p) && c.InLegacy(p)
      ensures RestsSeen(c, a.fs, b.fs, p)
    {
      MoveRests(c, a.fs, b.fs, r, p);
    }
    LosesBack(c, a, b, r);
    SparedOne(c, a, b, r);
  }

  lemma {:induction false} MoveFollows(c: Config, a: Store, b: Store, r: Path)
    requires c.Valid() && WellFormed(a.fs) && WellFormed(b.fs) && NotNested(c, a.fs) && MarksFit(c, a.marks)
    requires Met(c, a.fs, r) && !c.Sees(a.fs, c.root + r)
    requires b.marks == a.marks
    requires var src, dst := c.Legacy() + r, c.root + r;
             b.fs == if Renameable(a.fs, src, dst) then Renamed(a.fs, src, dst) else a.fs
    ensures Follows(c, a, b, {r})
  {
    forall p | !(c.root <= p)
      ensures Same(a.fs, b.fs, p)
    {
      EntryIsInRoot(c, r, p);
    }
    assert c.root + r <= c.root + r && (c.root + r)[|c.root + r|..] == [];
    assert c.Legacy() + r + [] == c.Legacy() + r;
    ExposedOne(c, a, b, r);
    if b.fs == a.fs {
      SparedStill(c, a, {r});
      assert Store(b.fs, b.marks) == a;
    } else {
      MoveSpares(c, a, b, r);
    }
    if c.blind == {} {
      MoveShrinks(c, a.fs, b.fs, r);
      MoveArrives(c, a.fs, b.fs, r);
      ExactOne(c, a, b, r);
    }
  }

  lemma {:induction false} DropFollows(c: Config, a: Store, b: Store, r: Path)
    requires c.Valid() && WellFormed(a.fs) && WellFormed(b.fs) && NotNested(c, a.fs) && MarksFit(c, a.marks)
    requires Met(c, a.fs, r) && c.Sees(a.fs, c.root + r) && IsFile(a.fs, c.Legacy() + r)
    requires Duplicate(c, a.fs, r) || Recalled(c, a, r)
    requires b.marks == a.marks && b.fs == a.fs - {c.Legacy() + r}
    ensures Follows(c, a, b, {r})
  {
    var src := c.Legacy() + r;
    assert c.InLegacy(src);
    LegacyIsInRoot(c, src);
    ExposedOne(c, a, b, r);
    DropSpares(c, a, b, r);
    if c.blind == {} {
      NothingBelow(a.fs, src);
      RemovalShrinks(c, a.fs, r);
      ExactOne(c, a, b, r);
    }
  }

  /** The content of a leftover that is dropped rests at its root path, or in the copy on record. */
  lemma {:induction false} DropRests(c: Config, a: Store, r: Path)
    requires c.Valid() && r != [] && MarksFit(c, a.marks) && IsFile(a.fs, c.Legacy() + r)
    requires Duplicate(c, a.fs, r) || Recalled(c, a, r)
    requires c.InLegacy(c.Legacy() + r)
    ensures RestsSeen(c, a.fs, a.fs - {c.Legacy() + r}, c.Legacy() + r)
  {
    var src, b := c.Legacy() + r, a.fs - {c.Legacy() + r};
    assert c.Rel(src) == r;
    if Duplicate(c, a.fs, r) {
      assert c.root + r != src;
      assert IsHome(c.root, r, c.root + r) && Keeps(c, a.fs, src, b, c.root + r);
    } else {
      var q := Marked(c, a, r).value;
      QuarantineIsOutside(c, q);
      assert MayRest(c, src, q) && Keeps(c, a.fs, src, b, q);
    }
  }

  lemma {:induction false} DropSpares(c: Config, a: Store, b: Store, r: Path)
    requires c.Valid() && WellFormed(a.fs) && NotNested(c, a.fs) && MarksFit(c, a.marks)
    requires Ends(c, a.fs, r) && IsFile(a.fs, c.Legacy() + r) && (Duplicate(c, a.fs, r) || Recalled(c, a, r))
    requires b.marks == a.marks && b.fs == a.fs - {c.Legacy() + r}
    ensures Spared(c, a, b, {r})
  {
    var src := c.Legacy() + r;
    assert c.InLegacy(src);
    RemovalShrinks(c, a.fs, r);
    ShrunkOutside(c, a.fs, b.fs);
    forall p | IsFile(a.fs, p) && c.InLegacy(p)
      ensures RestsSeen(c, a.fs, b.fs, p)
    {
      if p == src {
        DropRests(c, a, r);
      } else {
        StaysSeen(c, a.fs, b.fs, p);
      }
    }
    LosesBack(c, a, b, r);
    SparedOne(c, a, b, r);
  }

  lemma {:induction false} RemovalShrinks(c: Config, a: Tree, r: Path)
    requires c.Valid() && WellFormed(a) && NotNested(c, a)
    ensures Shrunk(c, a, a - {c.Legacy() + r})
  {
    var b := a - {c.Legacy() + r};
    assert c.InLegacy(c.Legacy() + r);
    forall q | c.Legacy() + q in b
      ensures Same(a, b, c.root + q)
    {
      if q != [] {
        FirstPart(c, a, q);
      }
    }
  }

  // ---- the quarantine ------------------------------------------------------------------------------------

  /** The first of an entry's slots that looks free, or none. */
  ghost predicate FirstUnseen(c: Config, fs: Tree, r: Path, n: nat)
    requires c.Valid() && r != []
  {
    && n <= SLOTS
    && (forall m: nat :: m < n ==> c.Sees(fs, c.Slot(r, m)))
    && (n < SLOTS ==> !c.Sees(fs, c.Slot(r, n)))
  }

  /** What quarantining an entry leaves, when no operation fails and the `n`-th slot is the first that looks free. */
  ghost predicate PutAt(c: Config, d: Tree, b: Tree, r: Path, n: nat, target: Option<Path>)
    requires c.Valid() && r != []
  {
    var src, at := c.Legacy() + r, c.Slot(r, n);
    if n == SLOTS || !IsFile(d, src) || IsDir(d, at) then b == d && target.None?
    else if at in c.blind then b == d - {at} && target.None?
    else b == (d - {src})[at := d[src]] && target == Some(at)
  }

  ghost predicate PutAway(c: Config, a: Tree, b: Tree, r: Path, target: Option<Path>)
    requires c.Valid() && r != []
  {
    if Refused(r) || !Passable(a, SlotDir(c, r)) then b == a && target.None?
    else
      var d := WithDirs(a, SlotDir(c, r));
      exists n: nat :: FirstUnseen(c, d, r, n) && PutAt(c, d, b, r, n, target)
  }

  /** The way to an entry's slots holds none of them, nor anything of the storage. */
  lemma {:induction false} WayIsNoSlot(c: Config, a: Tree, r: Path)
    requires c.Valid() && r != []
    ensures var d := WithDirs(a, SlotDir(c, r));
            && (forall n: nat :: Same(a, d, c.Slot(r, n)))
            && (forall p :: c.root <= p || c.InLegacy(p) ==> Same(a, d, p))
            && (forall p :: p in d && p !in a ==> p <= SlotDir(c, r) && d[p] == Dir && !(c.root <= p) && !c.InLegacy(p))
  {
    var d := WithDirs(a, SlotDir(c, r));
    forall p | p in d && p !in a
      ensures p <= SlotDir(c, r) && d[p] == Dir && !(c.root <= p) && !c.InLegacy(p)
    {
      AboveIsOutside(c, r, p);
    }
    forall n: nat
      ensures Same(a, d, c.Slot(r, n))
    {
      DirLeadsToSlot(c, r, n);
      assert !(c.Slot(r, n) <= SlotDir(c, r));
    }
  }

  lemma {:induction false} PutExposed(c: Config, a: Store, b: Store, r: Path, target: Option<Path>)
    requires c.Valid() && WellFormed(a.fs)
    requires Loses(c, a, r) && PutAway(c, a.fs, b.fs, r, target)
    requires OthersMarked(c, a, b, r)
    ensures Exposed(c, a, b, {r})
  {
    WayIsNoSlot(c, a.fs, r);
    var src := c.Legacy() + r;
    assert c.InLegacy(src);
    LegacyIsInRoot(c, src);
    forall n: nat
      ensures !(c.root <= c.Slot(r, n)) && !c.InLegacy(c.Slot(r, n))
    {
      SlotIsOutside(c, r, n);
    }
    forall n: nat | Wipes(c, a, r, n)
      ensures !IsFile(b.fs, c.Slot(r, n))
    {
      WipedSlot(c, a, b, r, target, n);
    }
    ExposedOne(c, a, b, r);
  }

  lemma {:induction false} FirstIsUnique(c: Config, fs: Tree, r: Path, n: nat, k: nat)
    requires c.Valid() && r != []
    requires FirstUnseen(c, fs, r, n) && FirstUnseen(c, fs, r, k)
    ensures n == k
  {
    assert c.Sees(fs, c.Slot(r, n)) || c.Sees(fs, c.Slot(r, k)) || n == k;
  }

  lemma {:induction false} WipedSlot(c: Config, a: Store, b: Store, r: Path, target: Option<Path>, n: nat)
    requires c.Valid() && WellFormed(a.fs)
    requires Loses(c, a, r) && PutAway(c, a.fs, b.fs, r, target)
    requires Wipes(c, a, r, n)
    ensures !IsFile(b.fs, c.Slot(r, n))
  {
    var at := c.Slot(r, n);
    DirLeadsToSlot(c, r, n);
    forall k | 0 <= k <= |SlotDir(c, r)|
      ensures SlotDir(c, r)[..k] in a.fs && a.fs[SlotDir(c, r)[..k]] == Dir
    {
      assert SlotDir(c, r)[..k] == at[..k];
    }
    var d := WithDirs(a.fs, SlotDir(c, r));
    WayIsNoSlot(c, a.fs, r);
    assert c.InLegacy(c.Legacy() + r);
    forall m: nat | m < n
      ensures c.Sees(d, c.Slot(r, m))
    {
      assert Same(a.fs, d, c.Slot(r, m));
    }
    assert Same(a.fs, d, at);
    var k: nat :| FirstUnseen(c, d, r, k) && PutAt(c, d, b.fs, r, k, target);
    FirstIsUnique(c, d, r, n, k);
    assert Same(a.fs, d, c.Legacy() + r);
  }

  /** What quarantining changes: the way to the slots, and the loser put into the first free one. */
  lemma {:induction false} PutChanges(c: Config, a: Tree, b: Tree, r: Path, target: Option<Path>)
    requires c.Valid() && r != [] && c.blind == {}
    requires PutAway(c, a, b, r, target)
    ensures forall p :: p in a && p != c.Legacy() + r ==> p in b && b[p] == a[p]
    ensures if target.None? then Same(a, b, c.Legacy() + r) else c.Legacy() + r !in b
    ensures forall p :: p in b && p !in a ==>
              && !(c.root <= p) && !Refused(r) && Passable(a, SlotDir(c, r))
              && ((p <= SlotDir(c, r) && b[p] == Dir) || (target == Some(p)
                    && exists n: nat :: n < SLOTS && p == c.Slot(r, n)))
    ensures target.Some? <==> Placed(c, a, r)
    ensures target.Some? ==> Preserved(c, a, b, r)
    ensures target.None? ==> Barred(c, b, r)
    ensures Barred(c, a, r) ==> !Placed(c, a, r)
  {
    var src := c.Legacy() + r;
    assert c.InLegacy(src);
    if !Refused(r) && Passable(a, SlotDir(c, r)) {
      var d := WithDirs(a, SlotDir(c, r));
      WayIsNoSlot(c, a, r);
      WayIsDir(c, a, r);
      assert Same(a, d, src);
      var n: nat :| FirstUnseen(c, d, r, n) && PutAt(c, d, b, r, n, target);
      SlotsAlike(c, a, d, r, n);
      SlotIsOutside(c, r, n);
      DirLeadsToSlot(c, r, n);
    }
  }

  lemma {:induction false} PutSubtree(c: Config, a: Tree, b: Tree, r: Path)
    requires WellFormed(a) && c.Legacy() + r in a
    requires forall p :: p in a && p != c.Legacy() + r ==> p in b && b[p] == a[p]
    requires forall p :: p in b && p !in a ==> !(c.root <= p)
    ensures IsFile(a, c.Legacy() + r) && c.Legacy() + r !in b ==> Cleared(b, c.Legacy() + r)
    ensures Same(a, b, c.Legacy() + r) ==> Unaltered(a, b, c.Legacy() + r) && !Cleared(b, c.Legacy() + r)
  {
    var src := c.Legacy() + r;
    assert c.InLegacy(src) && src <= src;
    forall q | src <= q
      ensures q != src ==> Same(a, b, q)
    {
      LegacyIsInRoot(c, q);
    }
    if IsFile(a, src) {
      NothingBelow(a, src);
    }
  }

  /** With every look-up succeeding, a loser leaves `.lfbridge/` exactly when it can be placed. */
  lemma {:induction false} PutOutcome(c: Config, a: Store, b: Store, r: Path, target: Option<Path>)
    requires c.Valid() && WellFormed(a.fs) && c.blind == {}
    requires Loses(c, a, r) && PutAway(c, a.fs, b.fs, r, target)
    requires Marked(c, b, r) == target
    ensures Outcome(c, a, b, r)
    ensures forall p :: p in b.fs && p !in a.fs ==> Leaves(c, a, b, r, p) && !(c.root <= p)
  {
    PutChanges(c, a.fs, b.fs, r, target);
    PutSubtree(c, a.fs, b.fs, r);
  }

  lemma {:induction false} SlotsAlike(c: Config, a: Tree, d: Tree, r: Path, n: nat)
    requires c.Valid() && r != [] && c.blind == {}
    requires forall k: nat :: Same(a, d, c.Slot(r, k))
    requires FirstUnseen(c, d, r, n)
    ensures n < SLOTS <==> exists k: nat :: k < SLOTS && c.Slot(r, k) !in a
    ensures n < SLOTS ==> c.Slot(r, n) !in d
  {
    assert Same(a, d, c.Slot(r, n));
    forall k: nat | k < n
      ensures c.Slot(r, k) in a
    {
      assert Same(a, d, c.Slot(r, k)) && c.Sees(d, c.Slot(r, k));
    }
  }

  lemma {:induction false} WayIsDir(c: Config, a: Tree, r: Path)
    requires c.Valid() && r != [] && Passable(a, SlotDir(c, r))
    ensures IsDir(WithDirs(a, SlotDir(c, r)), SlotDir(c, r))
    ensures forall p :: p <= SlotDir(c, r) ==> IsDir(WithDirs(a, SlotDir(c, r)), p)
  {
    var d := SlotDir(c, r);
    forall p | p <= d
      ensures IsDir(WithDirs(a, d), p)
    {
      assert p == d[..|p|];
    }
    assert d <= d;
  }

  lemma {:induction false} PutShrinks(c: Config, a: Tree, b: Tree, r: Path)
    requires c.Valid() && WellFormed(a) && NotNested(c, a)
    requires forall p :: p in b && p !in a ==> !(c.root <= p)
    requires forall p :: p in a && p != c.Legacy() + r ==> p in b && b[p] == a[p]
    requires c.Legacy() + r in b && c.Legacy() + r in a ==> b[c.Legacy() + r] == a[c.Legacy() + r]
    ensures Shrunk(c, a, b)
  {
    assert c.InLegacy(c.Legacy() + r);
    forall p | p in b && c.InLegacy(p)
      ensures p in a
    {
      LegacyIsInRoot(c, p);
    }
    forall q | c.Legacy() + q in b
      ensures Same(a, b, c.root + q)
    {
      assert c.root <= c.root + q;
      assert c.InLegacy(c.Legacy() + q);
      LegacyIsInRoot(c, c.Legacy() + q);
      if q != [] {
        FirstPart(c, a, q);
      }
    }
  }

  /** What an attempt to quarantine a loser leaves of the storage, and of the files of `.lfbridge/`. */
  lemma {:induction false} PutInStorage(c: Config, a: Tree, b: Tree, r: Path, target: Option<Path>)
    requires c.Valid() && r != [] && PutAway(c, a, b, r, target)
    ensures forall p :: c.root <= p && p != c.Legacy() + r ==> Same(a, b, p)
    ensures if target.None? then Same(a, b, c.Legacy() + r)
            else c.Legacy() + r !in b && c.Legacy() + r in a && target.value !in c.blind
                   && c.InQuarantine(target.value) && target.value in b && b[target.value] == a[c.Legacy() + r]
  {
    var src := c.Legacy() + r;
    assert c.InLegacy(src) && c.root <= src;
    if !Refused(r) && Passable(a, SlotDir(c, r)) {
      var d := WithDirs(a, SlotDir(c, r));
      WayIsNoSlot(c, a, r);
      assert Same(a, d, src);
      var n: nat :| FirstUnseen(c, d, r, n) && PutAt(c, d, b, r, n, target);
      SlotIsOutside(c, r, n);
    }
  }

  lemma {:induction false} PutNarrows(c: Config, a: Tree, b: Tree, r: Path)
    requires c.Valid() && WellFormed(a) && NotNested(c, a)
    requires forall p :: c.root <= p && p != c.Legacy() + r ==> Same(a, b, p)
    requires Same(a, b, c.Legacy() + r) || c.Legacy() + r !in b
    ensures Narrowed(c, a, b)
  {
    forall p | p in b && c.InLegacy(p)
      ensures p in a && b[p] == a[p]
    {
      LegacyIsInRoot(c, p);
      assert p != c.Legacy() + r ==> Same(a, b, p);
    }
    forall q | c.Legacy() + q in b
      ensures Same(a, b, c.root + q)
    {
      assert c.root <= c.root + q;
      assert c.InLegacy(c.Legacy() + q);
      LegacyIsInRoot(c, c.Legacy() + q);
      if q != [] {
        FirstPart(c, a, q);
        assert c.InLegacy(c.Legacy() + r);
      } else {
        assert |c.root + q| < |c.Legacy() + r|;
      }
    }
  }

  /** All that an attempt to quarantine a loser can take away is a file that a failing look-up hides in its slot. */
  lemma {:induction false} PutTakes(c: Config, a: Store, b: Tree, r: Path, target: Option<Path>, p: Path)
    requires c.Valid() && Loses(c, a, r) && PutAway(c, a.fs, b, r, target) && AllIndependent(c, a)
    requires p in a.fs && !c.InLegacy(p) && !Same(a.fs, b, p)
    ensures Taken(c, a, {r}, p)
  {
    var src := c.Legacy() + r;
    assert c.InLegacy(src);
    var d := WithDirs(a.fs, SlotDir(c, r));
    WayIsNoSlot(c, a.fs, r);
    var n: nat :| FirstUnseen(c, d, r, n) && PutAt(c, d, b, r, n, target);
    assert p == c.Slot(r, n);
    assert Same(a.fs, d, src) && Same(a.fs, d, p);
    forall m: nat | m < n
      ensures c.Sees(a.fs, c.Slot(r, m))
    {
      assert Same(a.fs, d, c.Slot(r, m)) && c.Sees(d, c.Slot(r, m));
    }
    assert Independent(c, a, r);
    assert Wipes(c, a, r, n);
    BelowOne(r, r);
  }

  /** All that an attempt adds outside the storage is the way to the slots, or the loser in one of them. */
  lemma {:induction false} PutDeposits(c: Config, a: Store, b: Tree, r: Path, target: Option<Path>, p: Path)
    requires c.Valid() && Loses(c, a, r) && PutAway(c, a.fs, b, r, target)
    requires p in b && p !in a.fs
    ensures Deposited(c, a, b, {r}, p)
  {
    BelowOne(r, r);
    var d := WithDirs(a.fs, SlotDir(c, r));
    WayIsNoSlot(c, a.fs, r);
    var n: nat :| FirstUnseen(c, d, r, n) && PutAt(c, d, b, r, n, target);
    DirLeadsToSlot(c, r, n);
  }

  lemma {:induction false} PutSpares(c: Config, a: Store, b: Store, r: Path, target: Option<Path>)
    requires c.Valid() && WellFormed(a.fs) && NotNested(c, a.fs) && MarksFit(c, a.marks)
    requires Loses(c, a, r) && PutAway(c, a.fs, b.fs, r, target)
    requires OthersMarked(c, a, b, r) && Marked(c, b, r) == target
    requires Exposed(c, a, b, {r})
    ensures Spared(c, a, b, {r})
  {
    var src := c.Legacy() + r;
    assert c.InLegacy(src) && c.Rel(src) == r;
    PutInStorage(c, a.fs, b.fs, r, target);
    PutNarrows(c, a.fs, b.fs, r);
    if AllIndependent(c, a) {
      forall p | p in a.fs && !c.InLegacy(p) && !Same(a.fs, b.fs, p)
        ensures Taken(c, a, {r}, p)
      {
        PutTakes(c, a, b.fs, r, target, p);
      }
    }
    forall p | IsFile(a.fs, p) && c.InLegacy(p)
      ensures RestsSeen(c, a.fs, b.fs, p)
    {
      LegacyIsInRoot(c, p);
      if p == src && target.Some? {
        assert MayRest(c, src, target.value) && Keeps(c, a.fs, src, b.fs, target.value);
      } else {
        StaysSeen(c, a.fs, b.fs, p);
      }
    }
    forall p | p in b.fs && p !in a.fs
      ensures Deposited(c, a, b.fs, {r}, p)
    {
      PutDeposits(c, a, b.fs, r, target, p);
    }
    SparedOne(c, a, b, r);
  }

  lemma {:induction false} PutFollows(c: Config, a: Store, b: Store, r: Path, target: Option<Path>)
    requires c.Valid() && WellFormed(a.fs) && WellFormed(b.fs) && NotNested(c, a.fs) && MarksFit(c, a.marks)
    requires Loses(c, a, r) && PutAway(c, a.fs, b.fs, r, target)
    requires OthersMarked(c, a, b, r)
    requires Marked(c, b, r) == target
    ensures Follows(c, a, b, {r})
  {
    PutExposed(c, a, b, r, target);
    PutSpares(c, a, b, r, target);
    if c.blind == {} {
      PutChanges(c, a.fs, b.fs, r, target);
      PutOutcome(c, a, b, r, target);
      PutShrinks(c, a.fs, b.fs, r);
      ExactOne(c, a, b, r);
    }
  }

  // ---- a directory ---------------------------------------------------------------------------------------

  /** The entries of these names in the directory `q`. */
  ghost function Tops(q: Path, names: seq<string>): (rs: set<Path>)
    ensures forall r :: r in rs <==> exists n :: n in names && r == q + [n]
  {
    set n | n in names :: q + [n]
  }

  lemma {:induction false} TopOf(fs: Tree, at: Path, q: Path, names: seq<string>, r: Path)
    requires WellFormed(fs) && at + r in fs && q < r
    requires forall n :: at + (q + [n]) in fs ==> n in names
    ensures Below(Tops(q, names), r)
  {
    var n := r[|q|];
    assert q + [n] <= r;
    var p := at + r;
    assert p[..|at| + |q| + 1] == at + (q + [n]);
    if |r| == |q| + 1 {
      assert r == q + [n];
    }
    assert q + [n] in Tops(q, names);
  }

  lemma {:induction false} TopsAreBelow(q: Path, names: seq<string>, r: Path)
    requires Below(Tops(q, names), r)
    ensures Below({q}, r) && r != q
  {
    var r0 :| r0 in Tops(q, names) && r0 <= r;
    assert q <= r0;
    BelowOne(q, r);
  }

  lemma {:induction false} EndsInDir(c: Config, fs: Tree, q: Path, names: seq<string>, r: Path)
    requires WellFormed(fs) && DirsMeet(c, fs, q) && forall n :: c.Legacy() + (q + [n]) in fs ==> n in names
    requires Below({q}, r) && Met(c, fs, r) && (IsFile(fs, c.Legacy() + r) || Ends(c, fs, r))
    ensures Below(Tops(q, names), r)
  {
    BelowOne(q, r);
    assert r != q;
    TopOf(fs, c.Legacy(), q, names, r);
  }

  lemma {:induction false} OverwrittenInDir(c: Config, fs: Tree, q: Path, names: seq<string>, r: Path)
    requires WellFormed(fs) && NotNested(c, fs)
    requires DirsMeet(c, fs, q) && forall n :: c.Legacy() + (q + [n]) in fs ==> n in names
    requires Below({q}, r) && Overwrites(c, fs, r)
    ensures Below(Tops(q, names), r) && c.root + r != c.Legacy() + q
  {
    EndsInDir(c, fs, q, names, r);
    FirstPart(c, fs, r);
    assert c.InLegacy(c.Legacy() + q);
  }

  lemma {:induction false} OutsideDir(c: Config, q: Path, names: seq<string>, p: Path)
    requires !At(c.Legacy(), {q}, p)
    ensures !At(c.Legacy(), Tops(q, names), p)
  {
    if At(c.Legacy(), Tops(q, names), p) {
      TopsAreBelow(q, names, p[|c.Legacy()|..]);
    }
  }

  /** The outcome of a directory's entries is that of the directory, left in place or pruned once it is empty. */
  lemma {:induction false} DirExposed(c: Config, a: Store, m: Store, b: Store, q: Path, names: seq<string>)
    requires c.Valid() && WellFormed(a.fs) && NotNested(c, a.fs)
    requires DirsMeet(c, a.fs, q) && forall n :: c.Legacy() + (q + [n]) in a.fs ==> n in names
    requires Exposed(c, a, m, Tops(q, names))
    requires b.marks == m.marks && (b.fs == m.fs || b.fs == m.fs - {c.Legacy() + q})
    ensures Exposed(c, a, b, {q})
  {
    assert c.InLegacy(c.Legacy() + q);
    LegacyIsInRoot(c, c.Legacy() + q);
    forall p | !At(c.Legacy(), {q}, p)
      ensures (p in a.marks <==> p in b.marks) && (p in a.marks ==> b.marks[p] == a.marks[p])
    {
      OutsideDir(c, q, names, p);
    }
    forall r | Below({q}, r) && Overwrites(c, a.fs, r)
      ensures c.root + r in b.fs && b.fs[c.root + r] == a.fs[c.Legacy() + r]
    {
      OverwrittenInDir(c, a.fs, q, names, r);
    }
    forall r, n: nat | Below({q}, r) && Wipes(c, a, r, n)
      ensures !IsFile(b.fs, c.Slot(r, n))
    {
      EndsInDir(c, a.fs, q, names, r);
    }
  }

  /** The directory `q`, removed if it is empty. */
  function PrunedOf(c: Config, fs: Tree, q: Path): Tree {
    if Empty(fs, c.Legacy() + q) then fs - {c.Legacy() + q} else fs
  }

  /** What is left in a directory that is not empty lies with an entry that stays. */
  lemma {:induction false} DirHeld(c: Config, a: Tree, m: Tree, b: Tree, q: Path, names: seq<string>, p: Path)
    requires c.Valid() && WellFormed(a) && WellFormed(m)
    requires forall n :: c.Legacy() + (q + [n]) in a ==> n in names
    requires forall p :: p in m && c.InLegacy(p) ==> p in a
    requires forall p :: p in m && At(c.Legacy(), Tops(q, names), p) ==> Held(c, a, m, Tops(q, names), p)
    requires b == PrunedOf(c, m, q)
    requires p in b && At(c.Legacy(), {q}, p)
    ensures Held(c, a, b, {q}, p)
  {
    var dir := c.Legacy() + q;
    AtOne(c.Legacy(), q, p);
    var w := p;
    if p == dir {
      w :| w in m && dir < w;
    }
    assert dir < w && w in m && c.Legacy() <= dir;
    var t := w[|c.Legacy()|..];
    assert w == c.Legacy() + t;
    SamePrefix(c.Legacy(), q, t);
    assert c.InLegacy(w);
    TopOf(a, c.Legacy(), q, names, t);
    assert At(c.Legacy(), Tops(q, names), w);
    var r :| Below(Tops(q, names), r) && Ends(c, a, r) && c.Legacy() + r in m && Comparable(w, c.Legacy() + r);
    TopsAreBelow(q, names, r);
    BelowOne(q, r);
    SamePrefix(c.Legacy(), q, r);
    assert c.Legacy() + r in b;
  }

  lemma {:induction false} PruneShrinks(c: Config, m: Tree, b: Tree, q: Path)
    requires c.Valid() && WellFormed(m) && NotNested(c, m)
    requires b == m || b == m - {c.Legacy() + q}
    ensures Shrunk(c, m, b)
  {
    RemovalShrinks(c, m, q);
  }

  lemma {:induction false} OutcomePruned(c: Config, a: Store, m: Store, b: Store, q: Path, r: Path)
    requires c.Valid() && r != [] && r[0] != LFBRIDGE && q < r && Outcome(c, a, m, r)
    requires b.marks == m.marks
    requires b.fs == m.fs || b.fs == m.fs - {c.Legacy() + q}
    ensures Outcome(c, a, b, r)
  {
    var dir := c.Legacy() + q;
    assert c.InLegacy(dir);
    forall p | c.Legacy() + r <= p
      ensures Same(m.fs, b.fs, p)
    {
      assert |dir| < |p|;
    }
    ClearedSame(m.fs, b.fs, c.Legacy() + r);
    assert c.Legacy() + r <= c.Legacy() + r;
    BarredStays(c, m.fs, b.fs, r);
    if Unaltered(a.fs, m.fs, c.Legacy() + r) {
      UnalteredBoth(a.fs, m.fs, b.fs, c.Legacy() + r);
    }
    if c.root + r !in a.fs {
      ArrivedPruned(c, a.fs, m.fs, b.fs, q, r);
    }
    if Preserved(c, a.fs, m.fs, r) {
      PreservedStays(c, a.fs, m.fs, b.fs, r);
    }
  }

  lemma {:induction false} ArrivedPruned(c: Config, a: Tree, m: Tree, b: Tree, q: Path, r: Path)
    requires r != [] && r[0] != LFBRIDGE && Arrived(c, a, m, r)
    requires b == m || b == m - {c.Legacy() + q}
    ensures Arrived(c, a, b, r)
  {
    forall t: Path
      ensures c.root + r + t != c.Legacy() + q
    {
      assert (c.root + r + t)[|c.root|] == r[0] && (c.Legacy() + q)[|c.root|] == LFBRIDGE;
    }
  }

  lemma {:induction false} LeavesPruned(c: Config, a: Store, m: Store, b: Store, rs: set<Path>, q: Path, p: Path)
    requires c.Valid() && forall r :: Below(rs, r) ==> Below({q}, r)
    requires Quarantined(c, a, m, rs, p)
    requires b.fs == m.fs || b.fs == m.fs - {c.Legacy() + q}
    requires p in b.fs
    ensures Quarantined(c, a, b, {q}, p)
  {
    var r :| r != [] && Below(rs, r) && Leaves(c, a, m, r, p);
    assert Leaves(c, a, b, r, p);
  }

  lemma {:induction false} MovedPruned(c: Config, a: Tree, m: Tree, b: Tree, rs: set<Path>, q: Path, p: Path)
    requires c.Valid() && forall r :: Below(rs, r) ==> Below({q}, r)
    requires Moved(c, a, m, rs, p)
    requires b == m || b == m - {c.Legacy() + q}
    ensures Moved(c, a, b, {q}, p)
  {
    var r :| Below(rs, r) && Ends(c, a, r) && c.root + r !in a && c.root + r <= p && Cleared(m, c.Legacy() + r);
    assert Below({q}, r) && Cleared(b, c.Legacy() + r);
  }

  lemma {:induction false} DirExact(c: Config, a: Store, m: Store, b: Store, q: Path, names: seq<string>)
    requires c.Valid() && WellFormed(a.fs) && WellFormed(m.fs) && NotNested(c, a.fs) && NotNested(c, m.fs)
    requires MarksFit(c, a.marks) && MarksFit(c, m.marks)
    requires DirsMeet(c, a.fs, q) && forall n :: c.Legacy() + (q + [n]) in a.fs ==> n in names
    requires forall p :: p in m.fs && c.InLegacy(p) ==> p in a.fs
    requires Exact(c, a, m, Tops(q, names))
    requires b.marks == m.marks
    requires b.fs == PrunedOf(c, m.fs, q)
    ensures Exact(c, a, b, {q})
  {
    var rs := Tops(q, names);
    assert c.InLegacy(c.Legacy() + q);
    LegacyIsInRoot(c, c.Legacy() + q);
    PruneShrinks(c, m.fs, b.fs, q);
    forall r | Below(rs, r)
      ensures Below({q}, r)
    {
      TopsAreBelow(q, names, r);
    }
    forall r | Below({q}, r) && Ends(c, a.fs, r)
      ensures Outcome(c, a, b, r)
    {
      EndsInDir(c, a.fs, q, names, r);
      BelowOne(q, r);
      FirstPart(c, a.fs, r);
      OutcomePruned(c, a, m, b, q, r);
    }
    forall p | p in b.fs && At(c.Legacy(), {q}, p)
      ensures Held(c, a.fs, b.fs, {q}, p)
    {
      DirHeld(c, a.fs, m.fs, b.fs, q, names, p);
    }
    ShrunkOutside(c, m.fs, b.fs);
    forall r
      ensures (Ends(c, b.fs, r) ==> Ends(c, a.fs, r)) && (Loses(c, b, r) ==> Loses(c, a, r))
    {
      EndsBack(c, m.fs, b.fs, r);
      LosesBack(c, m, b, r);
    }
    forall p | p in b.fs && p !in a.fs && !(c.root <= p)
      ensures Quarantined(c, a, b, {q}, p)
    {
      LeavesPruned(c, a, m, b, rs, q, p);
    }
    forall p | p in b.fs && p !in a.fs && c.root <= p
      ensures Moved(c, a.fs, b.fs, {q}, p)
    {
      MovedPruned(c, a.fs, m.fs, b.fs, rs, q, p);
    }
  }

  lemma {:induction false} RestsPruned(c: Config, a: Tree, m: Tree, b: Tree, q: Path, p: Path)
    requires c.Valid() && c.InLegacy(p) && IsFile(a, p) && RestsSeen(c, a, m, p)
    requires IsDir(m, c.Legacy() + q) && (b == m || b == m - {c.Legacy() + q})
    ensures RestsSeen(c, a, b, p)
  {
    var q' :| MayRest(c, p, q') && Keeps(c, a, p, m, q') && (q' == p || q' == c.root + c.Rel(p) || q' !in c.blind);
    assert Keeps(c, a, p, b, q');
  }

  lemma {:induction false} TakenAbove(c: Config, a: Store, rs: set<Path>, q: Path, p: Path)
    requires c.Valid() && forall r :: Below(rs, r) ==> Below({q}, r)
    requires Taken(c, a, rs, p)
    ensures Taken(c, a, {q}, p)
  {
  }

  lemma {:induction false} DepositedPruned(c: Config, a: Store, m: Tree, b: Tree, rs: set<Path>, q: Path, p: Path)
    requires c.Valid() && forall r :: Below(rs, r) ==> Below({q}, r)
    requires Deposited(c, a, m, rs, p) && p in b && Same(m, b, p)
    ensures Deposited(c, a, b, {q}, p)
  {
    var r :| Below(rs, r) && Loses(c, a, r) && p in m &&
             ((p <= SlotDir(c, r) && m[p] == Dir) || exists n: nat :: n < SLOTS && p == c.Slot(r, n));
    assert Below({q}, r);
  }

  lemma {:induction false} DirSpares(c: Config, a: Store, m: Store, b: Store, q: Path, names: seq<string>)
    requires c.Valid() && WellFormed(m.fs) && NotNested(c, m.fs) && MarksFit(c, m.marks)
    requires Spared(c, a, m, Tops(q, names)) && IsDir(m.fs, c.Legacy() + q)
    requires b.marks == m.marks && (b.fs == m.fs || b.fs == m.fs - {c.Legacy() + q})
    ensures Spared(c, a, b, {q})
  {
    var rs := Tops(q, names);
    assert c.InLegacy(c.Legacy() + q);
    forall r | Below(rs, r)
      ensures Below({q}, r)
    {
      TopsAreBelow(q, names, r);
    }
    if AllIndependent(c, a) {
      forall p | p in a.fs && !c.InLegacy(p) && !Same(a.fs, b.fs, p)
        ensures Taken(c, a, {q}, p)
      {
        assert !Same(a.fs, m.fs, p);
        TakenAbove(c, a, rs, q, p);
      }
    }
    forall p | IsFile(a.fs, p) && c.InLegacy(p) && p != c.Legacy()
      ensures RestsSeen(c, a.fs, b.fs, p)
    {
      RestsPruned(c, a.fs, m.fs, b.fs, q, p);
    }
    forall p | p in b.fs && p !in a.fs && !(c.root <= p)
      ensures Deposited(c, a, b.fs, {q}, p)
    {
      DepositedPruned(c, a, m.fs, b.fs, rs, q, p);
    }
    PruneShrinks(c, m.fs, b.fs, q);
    ShrunkOutside(c, m.fs, b.fs);
    forall r | Loses(c, b, r)
      ensures Loses(c, a, r) && (Marked(c, b, r) == Marked(c, a, r) || Marked(c, b, r).None?)
    {
      LosesBack(c, m, b, r);
    }
  }

  lemma {:induction false} DirFollows(c: Config, a: Store, m: Store, b: Store, q: Path, names: seq<string>, depth: nat)
    requires c.Valid() && WellFormed(a.fs) && WellFormed(m.fs) && NotNested(c, a.fs)
    requires MarksFit(c, a.marks) && MarksFit(c, m.marks)
    requires DirsMeet(c, a.fs, q) && forall n :: c.Legacy() + (q + [n]) in a.fs ==> n in names
    requires Confined(c, a.fs, m.fs, Tops(q, names), depth) && Follows(c, a, m, Tops(q, names))
    requires IsDir(m.fs, c.Legacy() + q) && b.marks == m.marks
    requires b.fs == PrunedOf(c, m.fs, q)
    ensures Follows(c, a, b, {q})
  {
    assert c.InLegacy(c.Legacy() + [LFBRIDGE]);
    DirExposed(c, a, m, b, q, names);
    DirSpares(c, a, m, b, q, names);
    if c.blind == {} {
      DirExact(c, a, m, b, q, names);
    }
  }

  /** One more entry of a directory. */
  lemma {:induction false} FollowsNext(c: Config, a: Store, m: Store, b: Store, q: Path, names: seq<string>, i: nat,
                                       depth: nat)
    requires c.Valid() && WellFormed(a.fs) && WellFormed(m.fs) && NotNested(c, a.fs) && MarksFit(c, a.marks)
    requires i < |names| && forall j, k :: 0 <= j < k < |names| ==> names[j] != names[k]
    requires forall n :: n in names ==> c.Legacy() + (q + [n]) in a.fs
    requires Confined(c, a.fs, m.fs, Tops(q, names[..i]), depth) && Follows(c, a, m, Tops(q, names[..i]))
    requires Confined(c, m.fs, b.fs, {q + [names[i]]}, depth) && Follows(c, m, b, {q + [names[i]]})
    ensures Follows(c, a, b, Tops(q, names[..i + 1]))
  {
    var rs, more := Tops(q, names[..i]), {q + [names[i]]};
    TopsGrow(q, names, i);
    forall r | r in rs + more
      ensures r != [] && r[0] != LFBRIDGE
    {
      FirstPart(c, a.fs, r);
    }
    ExposedTogether(c, a, m, b, rs, more, depth);
    SparedTogether(c, a, m, b, rs, more, depth);
    if c.blind == {} {
      ExactTogether(c, a, m, b, rs, more, depth);
    }
  }

  lemma {:induction false} TopsGrow(q: Path, names: seq<string>, i: nat)
    requires i < |names| && forall j, k :: 0 <= j < k < |names| ==> names[j] != names[k]
    ensures Tops(q, names[..i + 1]) == Tops(q, names[..i]) + {q + [names[i]]}
    ensures Separate(Tops(q, names[..i]), {q + [names[i]]})
    ensures forall r :: r in Tops(q, names[..i]) + {q + [names[i]]} ==> exists n :: n in names && r == q + [n]
  {
    assert names[..i + 1] == names[..i] + [names[i]];
    forall n | n in names[..i]
      ensures !(q + [n] <= q + [names[i]]) && !(q + [names[i]] <= q + [n])
    {
      assert (q + [n])[|q|] == n && (q + [names[i]])[|q|] == names[i];
    }
  }
}
