/**
 What moving a working repository's artifact files from its `.lfbridge/` to a sync repository promises of each
 file: where its newer version ends up, and what stays as it was.
 */
module RepoSync {
  import opened Wrappers
  import opened FileTree
  import opened Seqs

  const DS_STORE := ".DS_Store"

  /** `\.(transcription|ai_description|ai_description_rejected|ocr)$` */
  predicate IsArtifact(name: string) {
    || HasSuffix(name, ".transcription")
    || HasSuffix(name, ".ai_description")
    || HasSuffix(name, ".ai_description_rejected")
    || HasSuffix(name, ".ocr")
  }

  predicate HasSuffix(s: string, suffix: string) {
    |suffix| <= |s| && s[|s| - |suffix|..] == suffix
  }

  /** Artifacts go by the endings of their names. */
  lemma {:induction false} ArtifactNames(name: string)
    ensures IsArtifact(name) <==>
              exists stem: string ::
                || name == stem + ".transcription" || name == stem + ".ai_description"
                || name == stem + ".ai_description_rejected" || name == stem + ".ocr"
  {
    SuffixIs(name, ".transcription");
    SuffixIs(name, ".ai_description");
    SuffixIs(name, ".ai_description_rejected");
    SuffixIs(name, ".ocr");
  }

  lemma {:induction false} SuffixIs(s: string, suffix: string)
    ensures HasSuffix(s, suffix) <==> exists stem: string :: s == stem + suffix
  {
    if HasSuffix(s, suffix) {
      assert s == s[..|s| - |suffix|] + suffix;
    }
    forall stem: string | s == stem + suffix
      ensures HasSuffix(s, suffix)
    {
      assert s[|s| - |suffix|..] == suffix;
    }
  }

  /**
   Where files come from and go to, what `stat` says of a directory that stands at a file's place, and the
   destinations of which the existence test fails.
   */
  datatype Places = Places(from: Path, to: Path, sameSize: Path -> bool, newer: Path -> bool, blind: set<Path>) {
    ghost predicate Valid() {
      Apart(from, to)
    }
  }

  /** The files, and when each was last modified. */
  datatype Disk = Disk(fs: Tree, times: map<Path, int>) {
    function Time(p: Path): int {
      if p in times then times[p] else 0
    }

    /** What stands at a path: for a file, its bytes and time. */
    function Look(p: Path): Option<(Node, int)> {
      if p !in fs then None else Some((fs[p], if fs[p].File? then Time(p) else 0))
    }
  }

  /** What a look at a path shows: nothing, a file with its bytes and time, or a directory. */
  lemma {:induction false} LookIs(d: Disk, p: Path)
    ensures p !in d.fs <==> d.Look(p).None?
    ensures IsFile(d.fs, p) && p in d.times ==> d.Look(p) == Some((d.fs[p], d.times[p]))
    ensures IsDir(d.fs, p) ==> d.Look(p) == Some((Dir, 0))
  {
  }

  predicate IsArtifactAt(c: Places, fs: Tree, r: Path) {
    r != [] && IsArtifact(r[|r| - 1]) && IsFile(fs, c.from + r)
  }

  /** The artifacts at or below `rel`. */
  function Artifacts(c: Places, fs: Tree, rel: Path): (rs: set<Path>)
    ensures forall r :: r in rs <==> rel <= r && IsArtifactAt(c, fs, r)
  {
    var rs := set p | p in fs && c.from <= p && rel <= p[|c.from|..] && IsArtifactAt(c, fs, p[|c.from|..])
              :: p[|c.from|..];
    assert forall r :: (c.from + r)[|c.from|..] == r;
    rs
  }

  /** The version from `.lfbridge/` goes where there is none, and over an older, different file. */
  predicate Wins(c: Places, d: Disk, r: Path) {
    var s, t := c.from + r, c.to + r;
    t !in d.fs || (IsFile(d.fs, s) && IsFile(d.fs, t) && d.fs[t] != d.fs[s] && d.Time(s) > d.Time(t))
  }

  /** A directory stands where this artifact goes, and is taken for another file that is as new. */
  predicate Droppable(c: Places, fs: Tree, r: Path) {
    IsDir(fs, c.to + r) && !c.sameSize(c.to + r) && !c.newer(c.to + r)
  }

  /**
   Artifacts that were moved onto a file which a failing look-up had hidden, and artifacts whose copy to another
   volume broke off.
   */
  datatype Slips = Slips(over: set<Path>, torn: set<Path>) {
    function And(more: Slips): Slips {
      Slips(over + more.over, torn + more.torn)
    }
  }

  const NO_SLIPS := Slips({}, {})

  /** The slips of a run in which nothing but existence tests fails. */
  function Unseen(c: Places, fs: Tree, rs: set<Path>): Slips {
    Slips(set r | r in rs && c.to + r in c.blind && IsFile(fs, c.to + r), {})
  }

  /**
   An artifact is where it was, or gone from there and the winning version stands at its destination; it goes for a
   directory only where that can be taken for a file as new. One moved onto a hidden file stands there instead of it;
   a copy that broke off leaves any file there or none, and the artifact where it was.
   */
  ghost predicate Fate(c: Places, before: Disk, after: Disk, slips: Slips, r: Path) {
    var s, t := c.from + r, c.to + r;
    if r in slips.torn then
      && after.Look(s) == before.Look(s) && !IsDir(after.fs, t) && !IsDir(before.fs, t)
      && (Wins(c, before, r) || t in c.blind)
    else if r in slips.over then
      after.Look(s).None? && after.Look(t) == before.Look(s) && IsFile(before.fs, t) && t in c.blind
    else
      || (after.Look(s) == before.Look(s) && after.Look(t) == before.Look(t))
      || (&& after.Look(s).None? && after.Look(t) == before.Look(if Wins(c, before, r) then s else t)
          && (IsDir(before.fs, t) ==> Droppable(c, before.fs, r)))
  }

  /** A path that handling these artifacts may change. */
  ghost predicate Concerns(c: Places, rs: set<Path>, p: Path) {
    exists r :: r in rs && (p == c.from + r || p == c.to + r)
  }

  /** A path that handling these artifacts may make. */
  ghost predicate OnTheWay(c: Places, rs: set<Path>, p: Path) {
    exists r :: r in rs && p <= c.to + r
  }

  /** Handling these artifacts leads from one disk to the other. */
  ghost predicate Handled(c: Places, before: Disk, after: Disk, rs: set<Path>, slips: Slips) {
    && slips.over <= rs && slips.torn <= rs
    && (forall p :: p in before.fs && !Concerns(c, rs, p) ==> after.Look(p) == before.Look(p))
    && (forall p :: p in after.fs && p !in before.fs ==> OnTheWay(c, rs, p))
    && (forall p :: p in after.fs && p !in before.fs && !Concerns(c, rs, p) ==> after.fs[p] == Dir)
    && (forall r :: r in rs ==> Fate(c, before, after, slips, r))
  }

  /** These are artifacts, all of them. */
  ghost predicate AreArtifacts(c: Places, fs: Tree, rs: set<Path>) {
    WellFormed(fs) && forall r :: r in rs ==> IsArtifactAt(c, fs, r)
  }

  lemma {:induction false} SidesApart(c: Places, r: Path, p: Path)
    requires c.Valid() && p <= c.to + r
    ensures !(c.from <= p)
  {
    if c.from <= p {
      PrefixesCompare(c.from, c.to, c.to + r);
      assert false;
    }
  }

  /** No artifact lies below another. */
  lemma {:induction false} ArtifactsAreApart(c: Places, fs: Tree, r: Path, r': Path)
    requires WellFormed(fs)
    requires IsArtifactAt(c, fs, r) && IsArtifactAt(c, fs, r')
    requires c.to + r <= c.to + r'
    ensures r == r'
  {
    SamePrefix(c.to, r, r');
    SamePrefix(c.from, r, r');
    NothingBelow(fs, c.from + r);
    SameTail(c.from, r, r');
  }

  /** Handling others does not touch an artifact or its destination. */
  lemma {:induction false} OthersAreLeft(c: Places, fs: Tree, before: Disk, after: Disk, rs: set<Path>, slips: Slips,
                                         r: Path)
    requires c.Valid() && AreArtifacts(c, fs, rs + {r}) && r !in rs
    requires Handled(c, before, after, rs, slips)
    ensures after.Look(c.from + r) == before.Look(c.from + r)
    ensures after.Look(c.to + r) == before.Look(c.to + r)
  {
    var s, t := c.from + r, c.to + r;
    if Concerns(c, rs, s) || Concerns(c, rs, t) {
      var r' :| r' in rs && (s == c.from + r' || s == c.to + r' || t == c.from + r' || t == c.to + r');
      NotConcerned(c, fs, r, r');
      assert false;
    }
    if OnTheWay(c, rs, s) {
      var r' :| r' in rs && s <= c.to + r';
      SidesApart(c, r', s);
      assert false;
    }
    if OnTheWay(c, rs, t) {
      var r' :| r' in rs && t <= c.to + r';
      ArtifactsAreApart(c, fs, r, r');
      assert false;
    }
  }

  lemma {:induction false} NotConcerned(c: Places, fs: Tree, r: Path, r': Path)
    requires c.Valid() && WellFormed(fs) && r != r'
    requires IsArtifactAt(c, fs, r) && IsArtifactAt(c, fs, r')
    ensures var s, t := c.from + r, c.to + r;
            s != c.from + r' && s != c.to + r' && t != c.from + r' && t != c.to + r'
  {
    var s, t := c.from + r, c.to + r;
    if s == c.from + r' {
      SameTail(c.from, r, r');
    }
    if t == c.to + r' {
      SameTail(c.to, r, r');
    }
    SidesApart(c, r', c.to + r');
    SidesApart(c, r, c.to + r);
  }

  /** Nothing but the artifacts themselves changes on their side, and nothing is added there. */
  lemma {:induction false} SourceSide(c: Places, before: Disk, after: Disk, rs: set<Path>, slips: Slips, p: Path)
    requires c.Valid() && Handled(c, before, after, rs, slips) && c.from <= p
    ensures p in after.fs ==> p in before.fs
    ensures p[|c.from|..] !in rs ==> after.Look(p) == before.Look(p)
    ensures p in after.fs ==> after.Look(p) == before.Look(p)
  {
    forall r | r in rs
      ensures !(p <= c.to + r)
    {
      if p <= c.to + r {
        SidesApart(c, r, p);
      }
    }
    if Concerns(c, rs, p) {
      var r :| r in rs && (p == c.from + r || p == c.to + r);
      SidesApart(c, r, c.to + r);
      assert p[|c.from|..] == r;
      assert Fate(c, before, after, slips, r);
    }
  }

  lemma {:induction false} FateTogether(c: Places, a: Disk, b: Disk, d: Disk, first: set<Path>, more: set<Path>,
                                        x: Slips, y: Slips, r: Path)
    requires c.Valid() && AreArtifacts(c, a.fs, first + more) && first !! more
    requires Handled(c, a, b, first, x) && Handled(c, b, d, more, y)
    requires r in first + more
    ensures Fate(c, a, d, x.And(y), r)
  {
    if r in first {
      OthersAreLeft(c, a.fs, b, d, more, y, r);
      assert Fate(c, a, b, x, r);
    } else {
      OthersAreLeft(c, a.fs, a, b, first, x, r);
      assert Fate(c, b, d, y, r);
    }
  }

  /** Handling some artifacts and then others is handling all of them. */
  lemma {:induction false} HandledTogether(c: Places, a: Disk, b: Disk, d: Disk, first: set<Path>, more: set<Path>,
                                           x: Slips, y: Slips)
    requires c.Valid() && AreArtifacts(c, a.fs, first + more) && first !! more
    requires Handled(c, a, b, first, x) && Handled(c, b, d, more, y)
    ensures Handled(c, a, d, first + more, x.And(y))
  {
    forall r | r in first + more
      ensures Fate(c, a, d, x.And(y), r)
    {
      FateTogether(c, a, b, d, first, more, x, y, r);
    }
    forall p | !Concerns(c, first + more, p)
      ensures !Concerns(c, first, p) && !Concerns(c, more, p)
    {
      NarrowConcern(c, first, first + more, p);
      NarrowConcern(c, more, first + more, p);
    }
    forall p | p in d.fs && p !in a.fs
      ensures OnTheWay(c, first + more, p)
    {
      var r :| (r in first || r in more) && p <= c.to + r;
      assert r in first + more;
    }
  }

  lemma {:induction false} NarrowConcern(c: Places, rs: set<Path>, all: set<Path>, p: Path)
    requires rs <= all
    ensures Concerns(c, rs, p) ==> Concerns(c, all, p)
  {
  }

  lemma {:induction false} HandledNothing(c: Places, d: Disk)
    ensures Handled(c, d, d, {}, NO_SLIPS)
  {
  }

  // ---- when nothing fails --------------------------------------------------------------------------------

  /** Nothing but a file, if that, stands where this artifact goes, and no file stands on the way. */
  ghost predicate ClearAt(c: Places, fs: Tree, r: Path) {
    !IsDir(fs, c.to + r) && forall k :: 0 <= k < |c.to + r| ==> (c.to + r)[..k] !in fs || fs[(c.to + r)[..k]] == Dir
  }

  /** A directory stands where this artifact goes, and the artifact is dropped in its favour. */
  ghost predicate Lost(c: Places, fs: Tree, r: Path) {
    Droppable(c, fs, r) && c.to + r !in c.blind
  }

  lemma {:induction false} FileIsClear(c: Places, fs: Tree, r: Path)
    requires WellFormed(fs) && IsFile(fs, c.to + r)
    ensures ClearAt(c, fs, r)
  {
  }

  /** What becomes of an artifact when no operation fails, but for existence tests. */
  ghost predicate Done(c: Places, before: Disk, after: Disk, r: Path) {
    && (ClearAt(c, before.fs, r) ==> after.Look(c.from + r).None?)
    && (Lost(c, before.fs, r) ==> after.Look(c.from + r).None?)
    && (after.Look(c.from + r).None? ==> !IsDir(before.fs, c.to + r) || Lost(c, before.fs, r))
  }

  ghost predicate AllDone(c: Places, before: Disk, after: Disk, rs: set<Path>) {
    forall r :: r in rs ==> Done(c, before, after, r)
  }

  /** What stands on the way to an artifact's destination does not change in kind while others are handled. */
  lemma {:induction false} ClearStays(c: Places, fs: Tree, before: Disk, after: Disk, rs: set<Path>, slips: Slips,
                                      r: Path)
    requires c.Valid() && AreArtifacts(c, fs, rs + {r}) && r !in rs
    requires Handled(c, before, after, rs, slips)
    ensures ClearAt(c, before.fs, r) ==> ClearAt(c, after.fs, r)
    ensures Lost(c, before.fs, r) <==> Lost(c, after.fs, r)
    ensures IsDir(before.fs, c.to + r) <==> IsDir(after.fs, c.to + r)
  {
    var t := c.to + r;
    OthersAreLeft(c, fs, before, after, rs, slips, r);
    if ClearAt(c, before.fs, r) {
      forall k | 0 <= k < |t|
        ensures t[..k] !in after.fs || after.fs[t[..k]] == Dir
      {
        WayStays(c, fs, before, after, rs, slips, r, k);
      }
    }
  }

  lemma {:induction false} WayStays(c: Places, fs: Tree, before: Disk, after: Disk, rs: set<Path>, slips: Slips,
                                    r: Path, k: nat)
    requires c.Valid() && AreArtifacts(c, fs, rs + {r}) && r !in rs
    requires Handled(c, before, after, rs, slips)
    requires k < |c.to + r|
    requires (c.to + r)[..k] !in before.fs || before.fs[(c.to + r)[..k]] == Dir
    ensures (c.to + r)[..k] !in after.fs || after.fs[(c.to + r)[..k]] == Dir
  {
    var p := (c.to + r)[..k];
    assert p <= c.to + r;
    SidesApart(c, r, p);
    if Concerns(c, rs, p) {
      var r' :| r' in rs && (p == c.from + r' || p == c.to + r');
      if p == c.to + r' {
        ArtifactsAreApart(c, fs, r', r);
      }
      assert false;
    }
  }

  /** Handled one after the other, all are done. */
  lemma {:induction false} DoneTogether(c: Places, a: Disk, b: Disk, d: Disk, first: set<Path>, more: set<Path>,
                                        x: Slips, y: Slips)
    requires c.Valid() && AreArtifacts(c, a.fs, first + more) && first !! more
    requires Handled(c, a, b, first, x) && Handled(c, b, d, more, y)
    requires AllDone(c, a, b, first) && AllDone(c, b, d, more)
    ensures AllDone(c, a, d, first + more)
  {
    forall r | r in first + more
      ensures Done(c, a, d, r)
    {
      if r in first {
        OthersAreLeft(c, a.fs, b, d, more, y, r);
      } else {
        ClearStays(c, a.fs, a, b, first, x, r);
      }
    }
  }

  lemma {:induction false} UnseenTogether(c: Places, a: Disk, b: Disk, first: set<Path>, more: set<Path>, x: Slips)
    requires c.Valid() && AreArtifacts(c, a.fs, first + more) && first !! more
    requires Handled(c, a, b, first, x)
    ensures Unseen(c, a.fs, first).And(Unseen(c, b.fs, more)) == Unseen(c, a.fs, first + more)
  {
    forall r | r in more
      ensures IsFile(a.fs, c.to + r) <==> IsFile(b.fs, c.to + r)
    {
      OthersAreLeft(c, a.fs, a, b, first, x, r);
    }
  }

  // ---- the version that should survive -------------------------------------------------------------------

  /** The version of an artifact that the move is to keep: the one at its destination if that is as new. */
  function Newest(c: Places, d: Disk, r: Path): Node
    requires IsArtifactAt(c, d.fs, r)
  {
    if IsFile(d.fs, c.to + r) && !Wins(c, d, r) then d.fs[c.to + r] else d.fs[c.from + r]
  }

  /** The later of two files, the one at the destination if neither is; the artifact if nothing is there. */
  lemma {:induction false} NewestIs(c: Places, d: Disk, r: Path)
    requires IsArtifactAt(c, d.fs, r) && c.from + r in d.times
    ensures var s, t := c.from + r, c.to + r;
            && (t !in d.fs ==> Newest(c, d, r) == d.fs[s])
            && (IsFile(d.fs, t) && t in d.times && d.times[t] >= d.times[s] ==> Newest(c, d, r) == d.fs[t])
            && (IsFile(d.fs, t) && t in d.times && d.times[t] < d.times[s] ==> Newest(c, d, r) == d.fs[s])
  {
  }

  predicate Holds(fs: Tree, p: Path, n: Node) {
    p in fs && fs[p] == n
  }

  /** That version is where the artifact was, or at its destination. */
  predicate KeepsNewest(c: Places, before: Disk, after: Disk, r: Path)
    requires IsArtifactAt(c, before.fs, r)
  {
    var n := Newest(c, before, r);
    Holds(after.fs, c.from + r, n) || Holds(after.fs, c.to + r, n)
  }

  /** A look-up failed to see a file at the destination that is as new and differs, and it was written over. */
  ghost predicate Clobbered(c: Places, before: Disk, after: Disk, slips: Slips, r: Path)
    requires IsArtifactAt(c, before.fs, r)
  {
    var s, t := c.from + r, c.to + r;
    && (r in slips.over || r in slips.torn)
    && IsFile(before.fs, t) && !Wins(c, before, r) && before.fs[t] != before.fs[s]
    && (r in slips.torn ==> !Holds(after.fs, t, before.fs[t]))
  }

  /** The artifact was dropped in favour of a directory. */
  ghost predicate Dropped(c: Places, before: Disk, after: Disk, r: Path) {
    IsDir(before.fs, c.to + r) && c.from + r !in after.fs
  }

  /** The version to keep is lost just when it was written over unseen, or dropped for a directory. */
  lemma {:induction false} NewestIsKeptUnless(c: Places, before: Disk, after: Disk, slips: Slips, r: Path)
    requires IsArtifactAt(c, before.fs, r) && Fate(c, before, after, slips, r)
    ensures KeepsNewest(c, before, after, r) <==>
              !Clobbered(c, before, after, slips, r) && !Dropped(c, before, after, r)
  {
    var s, t := c.from + r, c.to + r;
    assert s in after.fs <==> after.Look(s).Some?;
    assert t in after.fs <==> after.Look(t).Some?;
  }

  /** A version as new as the artifact, and not the same, stands where an existence test fails to see it. */
  predicate Hidden(c: Places, d: Disk, r: Path)
    requires IsArtifactAt(c, d.fs, r)
  {
    var s, t := c.from + r, c.to + r;
    t in c.blind && IsFile(d.fs, t) && !Wins(c, d, r) && d.fs[t] != d.fs[s]
  }

  /** Whatever fails, only a version that is hidden, or that a directory can take the place of, may be lost. */
  lemma {:induction false} OnlyHiddenIsLost(c: Places, before: Disk, after: Disk, slips: Slips, r: Path)
    requires IsArtifactAt(c, before.fs, r) && Fate(c, before, after, slips, r)
    ensures !Hidden(c, before, r) && !Droppable(c, before.fs, r) ==> KeepsNewest(c, before, after, r)
  {
    NewestIsKeptUnless(c, before, after, slips, r);
  }

  /** When nothing but existence tests fails, just those versions are lost. */
  lemma {:induction false} HiddenIsLost(c: Places, before: Disk, after: Disk, slips: Slips, r: Path)
    requires WellFormed(before.fs) && IsArtifactAt(c, before.fs, r)
    requires Fate(c, before, after, slips, r) && Done(c, before, after, r)
    requires r !in slips.torn && (r in slips.over <==> c.to + r in c.blind && IsFile(before.fs, c.to + r))
    ensures KeepsNewest(c, before, after, r) <==> !Hidden(c, before, r) && !Lost(c, before.fs, r)
  {
    NewestIsKeptUnless(c, before, after, slips, r);
    var s := c.from + r;
    assert s in after.fs <==> after.Look(s).Some?;
  }

  /**
   A copy to another volume that broke off leaves a file with a fresh time, or none. The next run takes a file for a
   version of its own: the artifact gets through exactly when there is none, it holds all the bytes or it looks older.
   */
  lemma {:induction false} TornCopyIsTakenForAVersion(c: Places, a: Disk, b: Disk, d: Disk, x: Slips, y: Slips, r: Path)
    requires IsArtifactAt(c, a.fs, r) && r in x.torn && Fate(c, a, b, x, r)
    requires r !in y.over && r !in y.torn && Fate(c, b, d, y, r) && c.from + r !in d.fs
    ensures Holds(d.fs, c.to + r, a.fs[c.from + r]) <==>
            || c.to + r !in b.fs
            || Holds(b.fs, c.to + r, a.fs[c.from + r]) || b.Time(c.to + r) < a.Time(c.from + r)
  {
    var s, t := c.from + r, c.to + r;
    assert b.Look(s) == a.Look(s) && s in b.fs && b.fs[s] == a.fs[s] && b.Time(s) == a.Time(s);
    assert b.Look(s).Some? && (t in b.fs ==> b.Look(t).Some?);
    assert d.Look(t) == b.Look(if Wins(c, b, r) then s else t);
  }

  // ---- failing inputs ------------------------------------------------------------------------------------

  function Example(blind: set<Path>): (c: Places)
    ensures c.Valid() && c.from + ["a.ocr"] == ["from", "a.ocr"] && c.to + ["a.ocr"] == ["to", "a.ocr"]
  {
    var c := Places(["from"], ["to"], _ => false, _ => false, blind);
    assert c.Valid() by {
      assert "from"[0] != "to"[0];
      assert c.from[0] != c.to[0];
    }
    c
  }

  /** One artifact and what stands where it goes. */
  function ExampleTree(there: Node): (fs: Tree)
    ensures WellFormed(fs) && Holds(fs, ["from", "a.ocr"], File([1])) && Holds(fs, ["to", "a.ocr"], there)
    ensures forall p :: IsFile(fs, p) ==> p == ["from", "a.ocr"] || p == ["to", "a.ocr"]
    ensures forall blind :: IsArtifactAt(Example(blind), fs, ["a.ocr"])
  {
    var fs := map[[] := Dir, ["from"] := Dir, ["from", "a.ocr"] := File([1]), ["to"] := Dir, ["to", "a.ocr"] := there];
    assert "a.ocr"[|"a.ocr"| - 4..] == ".ocr";
    assert WellFormed(fs) by {
      forall p, k | p in fs && 0 <= k < |p|
        ensures p[..k] in fs && fs[p[..k]] == Dir
      {
        assert p[..k] == [] || p[..k] == ["from"] || p[..k] == ["to"];
      }
    }
    fs
  }

  /** The only artifact, put in the place of a hidden version. */
  lemma {:induction false} HiddenIsReplaced(c: Places, before: Disk, after: Disk, r: Path)
    requires c.Valid() && IsArtifactAt(c, before.fs, r) && Hidden(c, before, r)
    requires forall p :: IsFile(before.fs, p) ==> p == c.from + r || p == c.to + r
    requires after.fs == RenamedOver(before.fs, c.from + r, c.to + r)
    requires after.Time(c.to + r) == before.Time(c.from + r)
    ensures Done(c, before, after, r) && Handled(c, before, after, {r}, Slips({r}, {}))
    ensures !KeepsNewest(c, before, after, r)
  {
    var s, t := c.from + r, c.to + r;
    SidesApart(c, r, t);
    assert after.Look(s).None? && after.Look(t) == before.Look(s);
    forall p | !Concerns(c, {r}, p)
      ensures after.Look(p) == before.Look(p)
    {
      assert r in {r} && p != s && p != t && !IsFile(before.fs, p);
    }
  }

  /** A look-up that fails to see a newer version at the destination, and the rename after it, lose that version. */
  lemma {:induction false} HiddenVersionIsLost()
    ensures var c := Example({["to", "a.ocr"]});
            var before := Disk(ExampleTree(File([2])), map[["from", "a.ocr"] := 1, ["to", "a.ocr"] := 2]);
            var after := Disk(RenamedOver(before.fs, ["from", "a.ocr"], ["to", "a.ocr"]), map[["to", "a.ocr"] := 1]);
            && Hidden(c, before, ["a.ocr"]) && Done(c, before, after, ["a.ocr"])
            && Handled(c, before, after, {["a.ocr"]}, Slips({["a.ocr"]}, {}))
            && !KeepsNewest(c, before, after, ["a.ocr"])
  {
    var c := Example({["to", "a.ocr"]});
    var before := Disk(ExampleTree(File([2])), map[["from", "a.ocr"] := 1, ["to", "a.ocr"] := 2]);
    var after := Disk(RenamedOver(before.fs, ["from", "a.ocr"], ["to", "a.ocr"]), map[["to", "a.ocr"] := 1]);
    assert Hidden(c, before, ["a.ocr"]);
    HiddenIsReplaced(c, before, after, ["a.ocr"]);
  }

  /** An artifact is lost to a directory of its name that is taken for a newer file. */
  lemma {:induction false} DirectoryTakesAnArtifact()
    ensures var c := Example({});
            var before := Disk(ExampleTree(Dir), map[]);
            var after := Disk(before.fs - {["from", "a.ocr"]}, map[]);
            && Lost(c, before.fs, ["a.ocr"]) && Done(c, before, after, ["a.ocr"])
            && Handled(c, before, after, {["a.ocr"]}, NO_SLIPS)
            && !KeepsNewest(c, before, after, ["a.ocr"])
  {
  }

  // ---- the entries of a directory ------------------------------------------------------------------------

  /** The artifacts below `rel`, in these of its entries. */
  function InEntries(c: Places, fs: Tree, rel: Path, names: set<string>): (rs: set<Path>)
    ensures forall r :: r in rs <==> rel < r && r[|rel|] in names && IsArtifactAt(c, fs, r)
  {
    set r | r in Artifacts(c, fs, rel) && rel < r && r[|rel|] in names
  }

  lemma {:induction false} OneMoreEntry(c: Places, fs: Tree, rel: Path, names: set<string>, n: string)
    requires n !in names
    ensures InEntries(c, fs, rel, names + {n}) == InEntries(c, fs, rel, names) + Artifacts(c, fs, rel + [n])
    ensures InEntries(c, fs, rel, names) !! Artifacts(c, fs, rel + [n])
  {
    forall r
      ensures rel + [n] <= r <==> rel < r && r[|rel|] == n
    {
      if rel < r && r[|rel|] == n {
        assert rel + [n] == r[..|rel| + 1];
      }
    }
  }

  lemma {:induction false} HasEntry(c: Places, fs: Tree, rel: Path, r: Path)
    requires WellFormed(fs) && IsDir(fs, c.from + rel)
    requires rel <= r && IsArtifactAt(c, fs, r)
    ensures rel < r && c.from + rel + [r[|rel|]] in fs
  {
    var p := c.from + r;
    assert c.from + rel <= p && p != c.from + rel;
    var n := ChildOf(fs, c.from + rel, p);
    assert n == (c.from + rel + [n])[|c.from + rel|] == p[|c.from + rel|] == r[|rel|];
  }

  lemma {:induction false} AllEntries(c: Places, fs: Tree, rel: Path)
    requires IsDir(fs, c.from + rel) && WellFormed(fs)
    ensures InEntries(c, fs, rel, Names(fs, c.from + rel)) == Artifacts(c, fs, rel)
  {
    forall r | r in Artifacts(c, fs, rel)
      ensures rel < r && r[|rel|] in Names(fs, c.from + rel)
    {
      HasEntry(c, fs, rel, r);
    }
  }

  /** The artifacts of an entry that has not been handled are still those it had. */
  lemma {:induction false} EntryStays(c: Places, before: Disk, after: Disk, rs: set<Path>, slips: Slips, rel: Path)
    requires c.Valid() && Handled(c, before, after, rs, slips)
    requires forall r :: r in rs ==> !(rel <= r)
    ensures Artifacts(c, after.fs, rel) == Artifacts(c, before.fs, rel)
    ensures c.from + rel in after.fs <==> c.from + rel in before.fs
    ensures IsDir(after.fs, c.from + rel) <==> IsDir(before.fs, c.from + rel)
  {
    forall r | rel <= r
      ensures after.Look(c.from + r) == before.Look(c.from + r)
    {
      SourceSide(c, before, after, rs, slips, c.from + r);
      assert (c.from + r)[|c.from|..] == r;
    }
  }

  /** A file that is an entry is the only artifact there, or none is. */
  lemma {:induction false} FileEntry(c: Places, fs: Tree, rel: Path)
    requires WellFormed(fs) && rel != [] && IsFile(fs, c.from + rel)
    ensures Artifacts(c, fs, rel) == if IsArtifact(rel[|rel| - 1]) then {rel} else {}
  {
    forall r | r in Artifacts(c, fs, rel)
      ensures r == rel
    {
      var p := c.from + r;
      assert p[..|c.from + rel|] == c.from + rel;
      if |r| != |rel| {
        assert false;
      }
    }
  }
}
