/**
 What one step of the merge of `.lfbridge/` into the storage's root may change, whatever fails, and what it keeps
 when no failing look-up hides a file. Steps are about the entries at or below a set of paths, relative to
 `.lfbridge/`.
 */
module SdlMerge {
  import opened Wrappers
  import opened FileTree
  import opened SdlSafety
  import opened Seqs

  datatype Record = Record(dst: Path, size: int, quarantinedTo: Option<Path>)

  /** `r` is one of these entries or lies below one. */
  ghost predicate Below(rs: set<Path>, r: Path) {
    exists r0 :: r0 in rs && r0 <= r
  }

  /** The same, of an absolute path, for the entries as they stand in `at`. */
  ghost predicate At(at: Path, rs: set<Path>, p: Path) {
    at <= p && Below(rs, p[|at|..])
  }

  ghost predicate Same(f: Tree, g: Tree, p: Path) {
    (p in f <==> p in g) && (p in f ==> g[p] == f[p])
  }

  /** `after` is `before` with more in it. */
  ghost predicate Grown(before: Tree, after: Tree) {
    forall p :: p in before ==> p in after && after[p] == before[p]
  }

  /** Every path below `.lfbridge/` has at most `depth` parts. */
  ghost predicate Bounded(c: Config, fs: Tree, depth: nat) {
    forall p :: p in fs && c.InLegacy(p) ==> |p| <= depth
  }

  /** No entry of `.lfbridge/` bears that name itself. */
  ghost predicate NotNested(c: Config, fs: Tree) {
    c.Legacy() + [LFBRIDGE] !in fs
  }

  /** A directory of `.lfbridge/` whose root path is taken by a file. */
  ghost predicate Faces(c: Config, fs: Tree, r: Path) {
    r != [] && IsDir(fs, c.Legacy() + r) && IsFile(fs, c.root + r)
  }

  ghost predicate FacesKept(c: Config, before: Tree, after: Tree) {
    forall r :: Faces(c, before, r) ==> Faces(c, after, r)
  }

  ghost predicate Cleared(fs: Tree, src: Path) {
    forall p :: p in fs ==> !(src <= p)
  }

  /** A place that a file among these entries may be quarantined at. */
  ghost predicate IsSlot(c: Config, fs: Tree, rs: set<Path>, p: Path)
    requires c.Valid()
  {
    exists r, n: nat :: r != [] && Below(rs, r) && IsFile(fs, c.Legacy() + r) && n < SLOTS && p == c.Slot(r, n)
  }

  // ---- whatever fails ------------------------------------------------------------------------------------

  /** In the storage nothing changes but at these entries and their root paths, and what stands there keeps its kind. */
  ghost predicate Confined(c: Config, a: Tree, b: Tree, rs: set<Path>, depth: nat)
    requires c.Valid()
  {
    && (forall p :: c.root <= p && !At(c.Legacy(), rs, p) && !At(c.root, rs, p) ==> Same(a, b, p))
    && (forall p :: p in a && c.root <= p && !At(c.Legacy(), rs, p) ==> p in b && (a[p] == Dir <==> b[p] == Dir))
    && (Bounded(c, a, depth) ==> Bounded(c, b, depth))
    && (NotNested(c, a) ==>
          && (forall p :: p in b && c.InLegacy(p) ==> p in a && b[p] == a[p])
          && (forall p :: IsFile(b, p) && !IsFile(a, p) && !(c.root <= p) ==> IsSlot(c, a, rs, p)))
  }

  lemma {:induction false} ConfinedNothing(c: Config, fs: Tree, rs: set<Path>, depth: nat)
    requires c.Valid()
    ensures Confined(c, fs, fs, rs, depth)
  {
  }

  lemma {:induction false} BelowBoth(rs: set<Path>, more: set<Path>, r: Path)
    ensures Below(rs + more, r) <==> Below(rs, r) || Below(more, r)
  {
    if Below(rs, r) {
      var r0 :| r0 in rs && r0 <= r;
      assert r0 in rs + more;
    }
    if Below(more, r) {
      var r0 :| r0 in more && r0 <= r;
      assert r0 in rs + more;
    }
  }

  lemma {:induction false} SlotBoth(c: Config, a: Tree, m: Tree, rs: set<Path>, more: set<Path>, p: Path)
    requires c.Valid()
    requires forall q :: q in m && c.InLegacy(q) ==> q in a && m[q] == a[q]
    ensures IsSlot(c, a, rs, p) ==> IsSlot(c, a, rs + more, p)
    ensures IsSlot(c, m, more, p) ==> IsSlot(c, a, rs + more, p)
  {
    if IsSlot(c, a, rs, p) {
      var r, n: nat :| r != [] && Below(rs, r) && IsFile(a, c.Legacy() + r) && n < SLOTS && p == c.Slot(r, n);
      BelowBoth(rs, more, r);
      assert Below(rs + more, r);
    }
    if IsSlot(c, m, more, p) {
      var r, n: nat :| r != [] && Below(more, r) && IsFile(m, c.Legacy() + r) && n < SLOTS && p == c.Slot(r, n);
      BelowBoth(rs, more, r);
      assert Below(rs + more, r) && IsFile(a, c.Legacy() + r);
    }
  }

  lemma {:induction false} ConfinedTogether(c: Config, a: Tree, m: Tree, b: Tree, rs: set<Path>, more: set<Path>,
                                            depth: nat)
    requires c.Valid()
    requires Confined(c, a, m, rs, depth) && Confined(c, m, b, more, depth)
    ensures Confined(c, a, b, rs + more, depth)
    ensures NotNested(c, a) ==> NotNested(c, m)
  {
    forall at: Path, p: Path | at <= p
      ensures At(at, rs + more, p) <==> At(at, rs, p) || At(at, more, p)
    {
      BelowBoth(rs, more, p[|at|..]);
    }
    assert c.InLegacy(c.Legacy() + [LFBRIDGE]);
    if NotNested(c, a) {
      forall p | IsFile(b, p) && !IsFile(a, p) && !(c.root <= p)
        ensures IsSlot(c, a, rs + more, p)
      {
        SlotBoth(c, a, m, rs, more, p);
      }
    }
  }

  /** Steps at or below some entries are steps at or below entries above them. */
  lemma {:induction false} ConfinedAbove(c: Config, a: Tree, b: Tree, rs: set<Path>, tops: set<Path>, depth: nat)
    requires c.Valid()
    requires Confined(c, a, b, rs, depth)
    requires forall r :: r in rs ==> Below(tops, r)
    ensures Confined(c, a, b, tops, depth)
  {
    forall r | Below(rs, r)
      ensures Below(tops, r)
    {
      BelowAbove(rs, tops, r);
    }
    if NotNested(c, a) {
      forall p | IsSlot(c, a, rs, p)
        ensures IsSlot(c, a, tops, p)
      {
        var r, n: nat :| r != [] && Below(rs, r) && IsFile(a, c.Legacy() + r) && n < SLOTS && p == c.Slot(r, n);
        assert Below(tops, r);
      }
    }
  }

  lemma {:induction false} BelowAbove(rs: set<Path>, tops: set<Path>, r: Path)
    requires Below(rs, r) && forall r0 :: r0 in rs ==> Below(tops, r0)
    ensures Below(tops, r)
  {
    var r0 :| r0 in rs && r0 <= r;
    var t :| t in tops && t <= r0;
    assert t <= r;
  }

  lemma {:induction false} BelowOne(r0: Path, r: Path)
    ensures Below({r0}, r) <==> r0 <= r
  {
    if r0 <= r {
      assert r0 in {r0};
    }
  }

  lemma {:induction false} AtOne(at: Path, r0: Path, p: Path)
    ensures At(at, {r0}, p) <==> at + r0 <= p
  {
    if at + r0 <= p {
      assert at == (at + r0)[..|at|] == p[..|at|];
    }
    if at <= p {
      BelowOne(r0, p[|at|..]);
      assert p == at + p[|at|..];
      SamePrefix(at, r0, p[|at|..]);
    }
  }

  lemma {:induction false} RootPathInLegacy(c: Config, r: Path)
    ensures c.InLegacy(c.root + r) <==> r != [] && r[0] == LFBRIDGE
  {
    var q := c.root + r;
    if r != [] {
      assert q[|c.root|] == r[0];
      assert q[..|c.root| + 1] == c.root + [r[0]];
    }
  }

  lemma {:induction false} FirstPart(c: Config, fs: Tree, r: Path)
    requires WellFormed(fs)
    requires r != [] && c.Legacy() + r in fs && NotNested(c, fs)
    ensures r[0] != LFBRIDGE
    ensures !c.InLegacy(c.root + r)
  {
    var p := c.Legacy() + r;
    assert p[..|c.Legacy()| + 1] == c.Legacy() + [r[0]];
    if |r| == 1 {
      assert p == c.Legacy() + [r[0]];
    }
    RootPathInLegacy(c, r);
  }

  /** What lies at or below a path that is not in `.lfbridge/`, nor above it, is not in it. */
  lemma {:induction false} OutsideStaysOutside(c: Config, dst: Path, p: Path)
    requires |dst| > |c.root| && !c.InLegacy(dst) && c.InLegacy(p)
    ensures !(dst <= p)
  {
    if dst <= p {
      PrefixesCompare(dst, c.Legacy(), p);
      assert false;
    }
  }

  lemma {:induction false} AllAtOne(r0: Path)
    ensures forall at: Path, p: Path :: At(at, {r0}, p) <==> at + r0 <= p
  {
    forall at: Path, p: Path
      ensures At(at, {r0}, p) <==> at + r0 <= p
    {
      AtOne(at, r0, p);
    }
  }

  lemma {:induction false} LegacyIsInRoot(c: Config, p: Path)
    requires c.InLegacy(p)
    ensures c.root <= p
  {
    assert c.root == c.Legacy()[..|c.root|] == p[..|c.root|];
  }

  /** A move leaves the kind of what stands in the storage. */
  lemma {:induction false} MoveKeepsKinds(c: Config, fs: Tree, r: Path, p: Path)
    requires WellFormed(fs)
    requires r != [] && c.Legacy() + r in fs && Renameable(fs, c.Legacy() + r, c.root + r)
    requires p in fs && !(c.Legacy() + r <= p)
    ensures var b := Renamed(fs, c.Legacy() + r, c.root + r);
            p in b && (fs[p] == Dir <==> b[p] == Dir) && (p != c.root + r ==> b[p] == fs[p])
  {
    var src, dst := c.Legacy() + r, c.root + r;
    RenameableIsBare(fs, src, dst);
    if dst <= p {
      assert p == dst && src + p[|dst|..] == src;
    }
  }

  /** What a move puts into `.lfbridge/` comes from deeper in it, and nothing is put there unless its name recurs. */
  lemma {:induction false} MoveIntoLegacy(c: Config, fs: Tree, r: Path, p: Path)
    requires WellFormed(fs)
    requires r != [] && c.Legacy() + r in fs && Renameable(fs, c.Legacy() + r, c.root + r)
    requires p in Renamed(fs, c.Legacy() + r, c.root + r) && c.InLegacy(p)
    ensures (p in fs && Renamed(fs, c.Legacy() + r, c.root + r)[p] == fs[p]) ||
            exists q :: q in fs && c.InLegacy(q) && |q| > |p|
    ensures NotNested(c, fs) ==> p in fs && Renamed(fs, c.Legacy() + r, c.root + r)[p] == fs[p]
  {
    var src, dst := c.Legacy() + r, c.root + r;
    if NotNested(c, fs) {
      FirstPart(c, fs, r);
      OutsideStaysOutside(c, dst, p);
    }
    if dst <= p {
      var q := src + p[|dst|..];
      assert c.Legacy() <= src <= q && q in fs && |q| == |p| + 1;
    }
  }

  /** A step at one entry is confined to it. */
  lemma {:induction false} ConfinedOne(c: Config, a: Tree, b: Tree, r: Path, depth: nat)
    requires c.Valid()
    requires forall p :: c.root <= p && !(c.Legacy() + r <= p) && !(c.root + r <= p) ==> Same(a, b, p)
    requires forall p :: p in a && c.root <= p && !(c.Legacy() + r <= p) ==> p in b && (a[p] == Dir <==> b[p] == Dir)
    requires Bounded(c, a, depth) ==> Bounded(c, b, depth)
    requires NotNested(c, a) ==> forall p :: p in b && c.InLegacy(p) ==> p in a && b[p] == a[p]
    requires NotNested(c, a) ==>
               forall p :: IsFile(b, p) && !IsFile(a, p) && !(c.root <= p) ==> IsSlot(c, a, {r}, p)
    ensures Confined(c, a, b, {r}, depth)
  {
    AllAtOne(r);
  }

  lemma {:induction false} MoveElsewhere(c: Config, fs: Tree, r: Path, p: Path)
    requires c.Legacy() + r in fs
    requires !(c.Legacy() + r <= p) && !(c.root + r <= p)
    ensures Same(fs, Renamed(fs, c.Legacy() + r, c.root + r), p)
  {
  }

  lemma {:induction false} EntryIsInRoot(c: Config, r: Path, p: Path)
    ensures c.Legacy() + r <= p || c.root + r <= p ==> c.root <= p
  {
    if c.Legacy() + r <= p {
      assert c.root == (c.Legacy() + r)[..|c.root|] == p[..|c.root|];
    }
    if c.root + r <= p {
      assert c.root == (c.root + r)[..|c.root|] == p[..|c.root|];
    }
  }

  lemma {:induction false} MoveIsConfined(c: Config, fs: Tree, b: Tree, r: Path, depth: nat)
    requires c.Valid() && WellFormed(fs)
    requires r != [] && c.Legacy() + r in fs && Renameable(fs, c.Legacy() + r, c.root + r)
    requires b == Renamed(fs, c.Legacy() + r, c.root + r)
    ensures Confined(c, fs, b, {r}, depth)
  {
    forall p | p in b && c.InLegacy(p)
      ensures Bounded(c, fs, depth) ==> |p| <= depth
      ensures NotNested(c, fs) ==> p in fs && b[p] == fs[p]
    {
      MoveIntoLegacy(c, fs, r, p);
    }
    forall p | !(c.root <= p) || (!(c.Legacy() + r <= p) && !(c.root + r <= p))
      ensures Same(fs, b, p)
    {
      EntryIsInRoot(c, r, p);
      MoveElsewhere(c, fs, r, p);
    }
    forall p | p in fs && !(c.Legacy() + r <= p)
      ensures p in b && (fs[p] == Dir <==> b[p] == Dir)
    {
      MoveKeepsKinds(c, fs, r, p);
    }
    ConfinedOne(c, fs, b, r, depth);
  }

  lemma {:induction false} RemovalIsConfined(c: Config, fs: Tree, r: Path, depth: nat)
    requires c.Valid()
    ensures Confined(c, fs, fs - {c.Legacy() + r}, {r}, depth)
  {
    ConfinedOne(c, fs, fs - {c.Legacy() + r}, r, depth);
  }

  /** Outside the storage anything may change but that no new file stands where a loser would not be put. */
  lemma {:induction false} QuarantineIsConfined(c: Config, a: Tree, b: Tree, r: Path, depth: nat)
    requires c.Valid() && r != []
    requires forall p :: c.root <= p && p != c.Legacy() + r ==> Same(a, b, p)
    requires c.Legacy() + r in b ==> Same(a, b, c.Legacy() + r)
    requires forall p :: IsFile(b, p) && !IsFile(a, p) && !(c.root <= p) ==>
               IsFile(a, c.Legacy() + r) && exists n: nat :: n < SLOTS && p == c.Slot(r, n)
    ensures Confined(c, a, b, {r}, depth)
  {
    forall p | c.root <= p && p != c.Legacy() + r
      ensures (p in a <==> p in b) && (p in a ==> b[p] == a[p])
    {
      assert Same(a, b, p);
    }
    forall p | c.InLegacy(p)
      ensures c.root <= p
    {
      LegacyIsInRoot(c, p);
    }
    forall p | IsFile(b, p) && !IsFile(a, p) && !(c.root <= p)
      ensures IsSlot(c, a, {r}, p)
    {
      BelowOne(r, r);
    }
    ConfinedOne(c, a, b, r, depth);
  }

  // ---- when no look-up hides a file ----------------------------------------------------------------------

  /** No failing look-up hides a file of other bytes at the root path of one of these entries, or any file in its
      quarantine slots. */
  ghost predicate Unclouded(c: Config, fs: Tree, rs: set<Path>)
    requires c.Valid()
  {
    && (NotNested(c, fs) || c.blind == {})
    && (forall r {:trigger c.root + r} ::
          r != [] && Below(rs, r) && IsFile(fs, c.Legacy() + r) && IsFile(fs, c.root + r) && c.root + r in c.blind ==>
            fs[c.root + r] == fs[c.Legacy() + r])
    && (forall r, n: nat {:trigger c.Slot(r, n)} ::
          r != [] && Below(rs, r) && IsFile(fs, c.Legacy() + r) && n < SLOTS && c.Slot(r, n) in c.blind ==>
            !IsFile(fs, c.Slot(r, n)))
  }

  /** No two files of `.lfbridge/` can be given the same quarantine place by look-ups that fail. */
  ghost predicate Solo(c: Config, fs: Tree)
    requires c.Valid()
  {
    forall r, r', n: nat, n': nat {:trigger c.Slot(r, n), c.Slot(r', n')} ::
      && r != [] && r' != [] && n < SLOTS && n' < SLOTS
      && IsFile(fs, c.Legacy() + r) && IsFile(fs, c.Legacy() + r')
      && c.Slot(r, n) == c.Slot(r', n') && c.Slot(r, n) in c.blind
      ==> r == r'
  }

  /** No entry of one set is, or lies below, one of the other. */
  ghost predicate Separate(rs: set<Path>, more: set<Path>) {
    forall r, r' :: r in rs && r' in more ==> !(r <= r') && !(r' <= r)
  }

  lemma {:induction false} SeparateBelow(rs: set<Path>, more: set<Path>, r: Path)
    requires Separate(rs, more) && Below(more, r)
    ensures !Below(rs, r)
    ensures forall r1 :: r1 in rs ==> !(r <= r1)
  {
    var r' :| r' in more && r' <= r;
    forall r1 | r1 in rs
      ensures !(r1 <= r) && !(r <= r1)
    {
      if r1 <= r {
        PrefixesCompare(r1, r', r);
        assert false;
      }
    }
  }

  /** No entry bears the name of `.lfbridge/` itself. */
  ghost predicate Proper(rs: set<Path>) {
    forall r :: r in rs && r != [] ==> r[0] != LFBRIDGE
  }

  lemma {:induction false} NotAt(c: Config, rs: set<Path>, r: Path)
    requires (r != [] ==> r[0] != LFBRIDGE) && !Below(rs, r) && Proper(rs)
    ensures !At(c.Legacy(), rs, c.Legacy() + r) && !At(c.root, rs, c.Legacy() + r)
    ensures !At(c.Legacy(), rs, c.root + r) && !At(c.root, rs, c.root + r)
  {
    assert (c.Legacy() + r)[|c.Legacy()|..] == r && (c.root + r)[|c.root|..] == r;
    assert (c.Legacy() + r)[|c.root|..] == [LFBRIDGE] + r;
    RootPathInLegacy(c, r);
    assert [] in rs ==> Below(rs, r);
    forall r1 | r1 in rs
      ensures !(r1 <= [LFBRIDGE] + r)
    {
      assert ([LFBRIDGE] + r)[0] == LFBRIDGE;
    }
  }

  /** What the steps elsewhere leave of the entries still to come. */
  lemma {:induction false} ElsewhereSame(c: Config, a: Tree, m: Tree, rs: set<Path>, r: Path, depth: nat)
    requires c.Valid()
    requires Confined(c, a, m, rs, depth) && Proper(rs) && !Below(rs, r)
    requires r != [] ==> r[0] != LFBRIDGE
    ensures Same(a, m, c.Legacy() + r) && Same(a, m, c.root + r)
  {
    NotAt(c, rs, r);
    assert c.root <= c.root + r && c.root <= c.Legacy() + r;
  }

  /** What is to come is as unclouded as it was: steps elsewhere put nothing where it will be looked for. */
  lemma {:induction false} UncloudedNext(c: Config, a: Tree, m: Tree, rs: set<Path>, r0: Path, depth: nat)
    requires c.Valid() && Unclouded(c, a, {r0}) && Solo(c, a)
    requires Confined(c, a, m, rs, depth) && Proper(rs) && Separate(rs, {r0})
    requires r0 != [] && (NotNested(c, a) ==> r0[0] != LFBRIDGE)
    ensures Unclouded(c, m, {r0})
  {
    if c.blind != {} {
      assert c.InLegacy(c.Legacy() + [LFBRIDGE]);
      forall r | Below({r0}, r)
        ensures r != [] && r[0] != LFBRIDGE && !Below(rs, r)
        ensures Same(a, m, c.root + r) && Same(a, m, c.Legacy() + r)
      {
        BelowOne(r0, r);
        SeparateBelow(rs, {r0}, r);
        ElsewhereSame(c, a, m, rs, r, depth);
      }
      forall r, n: nat | r != [] && Below({r0}, r) && IsFile(m, c.Legacy() + r) && n < SLOTS && c.Slot(r, n) in c.blind
        ensures !IsFile(m, c.Slot(r, n))
      {
        SlotStaysClear(c, a, m, rs, r, n, depth);
      }
    }
  }

  lemma {:induction false} SlotStaysClear(c: Config, a: Tree, m: Tree, rs: set<Path>, r: Path, n: nat, depth: nat)
    requires c.Valid() && Solo(c, a) && NotNested(c, a)
    requires Confined(c, a, m, rs, depth)
    requires r != [] && !Below(rs, r) && IsFile(m, c.Legacy() + r) && n < SLOTS && c.Slot(r, n) in c.blind
    requires IsFile(a, c.Legacy() + r) ==> !IsFile(a, c.Slot(r, n))
    ensures !IsFile(m, c.Slot(r, n))
  {
    assert c.InLegacy(c.Legacy() + r);
    c.SlotLies(r, n);
    QuarantineIsOutside(c, c.Slot(r, n));
    assert IsFile(m, c.Slot(r, n)) && !IsFile(a, c.Slot(r, n)) ==> IsSlot(c, a, rs, c.Slot(r, n));
  }

  /** No content is lost, nothing else changes, and a directory that faces a file goes on facing it. */
  ghost predicate Kept(c: Config, a: Tree, b: Tree, rs: set<Path>)
    requires c.Valid()
  {
    && Safe(c, a, b)
    && (forall p :: p in a && !At(c.Legacy(), rs, p) ==> p in b && b[p] == a[p])
    && (NotNested(c, a) ==> FacesKept(c, a, b))
  }

  lemma {:induction false} KeptNothing(c: Config, fs: Tree, rs: set<Path>)
    requires c.Valid()
    ensures Kept(c, fs, fs, rs)
  {
    SafeIsReflexive(c, fs);
  }

  lemma {:induction false} KeptTogether(c: Config, a: Tree, m: Tree, b: Tree, rs: set<Path>, more: set<Path>)
    requires c.Valid()
    requires Kept(c, a, m, rs) && Kept(c, m, b, more)
    requires NotNested(c, a) ==> NotNested(c, m)
    ensures Kept(c, a, b, rs + more)
  {
    SafeIsTransitive(c, a, m, b);
    forall p
      ensures At(c.Legacy(), rs + more, p) <==> At(c.Legacy(), rs, p) || At(c.Legacy(), more, p)
    {
      if c.Legacy() <= p {
        BelowBoth(rs, more, p[|c.Legacy()|..]);
      }
    }
  }

  lemma {:induction false} KeptAbove(c: Config, a: Tree, b: Tree, rs: set<Path>, tops: set<Path>)
    requires c.Valid() && Kept(c, a, b, rs)
    requires forall r :: r in rs ==> Below(tops, r)
    ensures Kept(c, a, b, tops)
  {
    forall p | At(c.Legacy(), rs, p)
      ensures At(c.Legacy(), tops, p)
    {
      BelowAbove(rs, tops, p[|c.Legacy()|..]);
    }
  }

  lemma {:induction false} KeptOne(c: Config, a: Tree, b: Tree, r: Path)
    requires c.Valid() && Safe(c, a, b)
    requires forall p :: p in a && !(c.Legacy() + r <= p) ==> p in b && b[p] == a[p]
    requires NotNested(c, a) ==> FacesKept(c, a, b)
    ensures Kept(c, a, b, {r})
  {
    AllAtOne(r);
  }

  lemma {:induction false} GrowthIsKept(c: Config, a: Tree, b: Tree, r: Path)
    requires c.Valid() && Grown(a, b)
    ensures Kept(c, a, b, {r})
  {
    GrowingIsSafe(c, a, b);
    KeptOne(c, a, b, r);
  }

  lemma {:induction false} FacingIsNotMoved(c: Config, fs: Tree, r: Path, r': Path)
    requires WellFormed(fs)
    requires Faces(c, fs, r') && !c.InLegacy(c.root + r')
    requires r != [] && c.Legacy() + r in fs && Renameable(fs, c.Legacy() + r, c.root + r)
    ensures !(c.Legacy() + r <= c.Legacy() + r')
    ensures !(c.Legacy() + r <= c.root + r')
    ensures !(c.root + r <= c.root + r')
  {
    RenameableIsBare(fs, c.Legacy() + r, c.root + r);
    assert c.Legacy() <= c.Legacy() + r;
    if IsFile(fs, c.Legacy() + r) {
      NothingBelow(fs, c.Legacy() + r);
    }
    SamePrefix(c.Legacy(), r, r');
    SamePrefix(c.root, r, r');
  }

  lemma {:induction false} MoveIsKept(c: Config, fs: Tree, b: Tree, r: Path)
    requires c.Valid() && WellFormed(fs)
    requires r != [] && c.Legacy() + r in fs && Renameable(fs, c.Legacy() + r, c.root + r)
    requires c.root + r in fs ==> fs[c.root + r] == fs[c.Legacy() + r]
    requires b == Renamed(fs, c.Legacy() + r, c.root + r)
    ensures Kept(c, fs, b, {r})
  {
    MovingIsSafe(c, fs, r);
    if NotNested(c, fs) {
      forall r' | Faces(c, fs, r')
        ensures Faces(c, b, r')
      {
        FirstPart(c, fs, r');
        FacingIsNotMoved(c, fs, r, r');
      }
    }
    KeptOne(c, fs, b, r);
  }

  lemma {:induction false} DropIsKept(c: Config, fs: Tree, r: Path, q: Path)
    requires c.Valid() && WellFormed(fs)
    requires r != [] && IsFile(fs, c.Legacy() + r)
    requires q != c.Legacy() + r && MayRest(c, c.Legacy() + r, q) && Keeps(c, fs, c.Legacy() + r, fs, q)
    ensures Kept(c, fs, fs - {c.Legacy() + r}, {r})
  {
    DroppingIsSafe(c, fs, c.Legacy() + r, q);
    if NotNested(c, fs) {
      forall r' | Faces(c, fs, r')
        ensures Faces(c, fs - {c.Legacy() + r}, r')
      {
        FirstPart(c, fs, r');
      }
    }
    KeptOne(c, fs, fs - {c.Legacy() + r}, r);
  }

  lemma {:induction false} PruneIsKept(c: Config, fs: Tree, r: Path)
    requires c.Valid() && WellFormed(fs)
    requires IsDir(fs, c.Legacy() + r)
    requires NotNested(c, fs) && r != [] ==> !IsFile(fs, c.root + r)
    ensures Kept(c, fs, fs - {c.Legacy() + r}, {r})
  {
    var dir := c.Legacy() + r;
    PruningIsSafe(c, fs, dir);
    if NotNested(c, fs) {
      forall r' | Faces(c, fs, r')
        ensures Faces(c, fs - {dir}, r')
      {
        FirstPart(c, fs, r');
        if c.Legacy() + r' == dir {
          SameTail(c.Legacy(), r', r);
          assert false;
        }
      }
    }
    KeptOne(c, fs, fs - {dir}, r);
  }

  /** The loser of a conflict copied to a place in the quarantine where no file stood, and removed from `.lfbridge/`. */
  lemma {:induction false} QuarantineIsKept(c: Config, a: Tree, b: Tree, r: Path, t: Path)
    requires c.Valid() && WellFormed(a)
    requires r != [] && IsFile(a, c.Legacy() + r)
    requires c.InQuarantine(t)
    requires forall q :: q in a && q != c.Legacy() + r ==> q in b && b[q] == a[q]
    requires t in b && b[t] == a[c.Legacy() + r]
    ensures Kept(c, a, b, {r})
  {
    var p := c.Legacy() + r;
    forall f | IsFile(a, f) && c.InLegacy(f)
      ensures Survives(c, a, b, f)
    {
      if f == p {
        assert MayRest(c, f, t) && Keeps(c, a, f, b, t);
      } else {
        assert MayRest(c, f, f) && Keeps(c, a, f, b, f);
      }
    }
    if NotNested(c, a) {
      forall r' | Faces(c, a, r')
        ensures Faces(c, b, r')
      {
        FirstPart(c, a, r');
      }
    }
    assert c.InLegacy(p);
    KeptOne(c, a, b, r);
  }
}
