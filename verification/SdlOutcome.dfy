/**
 What a run without failing operations makes of every entry of `.lfbridge/` that the merge meets, in terms of
 the storage as it stood before the run. A look-up may still fail, of paths outside `.lfbridge/`.
 */
module SdlOutcome {
  import opened Wrappers
  import opened FileTree
  import opened SdlSafety
  import opened SdlMerge

  /** The files, and the record of earlier conflicts. */
  datatype Store = Store(fs: Tree, marks: map<Path, Record>)

  // ---- the entries the merge meets -----------------------------------------------------------------------

  /** The merge goes on below `q`: it is a directory on both sides, and the look-up of the root one succeeds. */
  predicate DirsMeet(c: Config, fs: Tree, q: Path) {
    IsDir(fs, c.Legacy() + q) && IsDir(fs, c.root + q) && (q == [] || c.root + q !in c.blind)
  }

  ghost predicate Met(c: Config, fs: Tree, r: Path) {
    r != [] && c.Legacy() + r in fs && forall k :: 0 <= k < |r| ==> DirsMeet(c, fs, r[..k])
  }

  /** An entry that is dealt with as a whole. */
  ghost predicate Ends(c: Config, fs: Tree, r: Path) {
    Met(c, fs, r) && !DirsMeet(c, fs, r)
  }

  /** The root path holds the same content. */
  predicate Duplicate(c: Config, fs: Tree, r: Path) {
    && IsFile(fs, c.Legacy() + r) && IsFile(fs, c.root + r)
    && SameContent(c.parse, IsYaml(c.Legacy() + r), fs[c.Legacy() + r].bytes, fs[c.root + r].bytes)
  }

  /** The quarantine place recorded for an entry. */
  function Marked(c: Config, s: Store, r: Path): Option<Path> {
    if c.Legacy() + r in s.marks then s.marks[c.Legacy() + r].quarantinedTo else None
  }

  /** The copy that an earlier conflict recorded still holds the same content. */
  predicate Recalled(c: Config, s: Store, r: Path) {
    var q := Marked(c, s, r);
    && q.Some? && IsFile(s.fs, c.Legacy() + r) && c.Sees(s.fs, q.value) && IsFile(s.fs, q.value)
    && SameContent(c.parse, IsYaml(c.Legacy() + r), s.fs[c.Legacy() + r].bytes, s.fs[q.value].bytes)
  }

  /** A genuine conflict: the root path is taken, and the content rests neither there nor in the recorded copy. */
  ghost predicate Loses(c: Config, s: Store, r: Path) {
    Ends(c, s.fs, r) && c.Sees(s.fs, c.root + r) && !Duplicate(c, s.fs, r) && !Recalled(c, s, r)
  }

  /** Entries are dealt with one by one below directories that stand on both sides, and as a whole otherwise. */
  lemma {:induction false} EndsIs(c: Config, fs: Tree, r: Path)
    requires c.blind == {}
    ensures var src, dst := c.root + [".lfbridge"], c.root;
            Ends(c, fs, r) <==>
              && r != [] && src + r in fs
              && (forall k :: 0 <= k < |r| ==>
                    && src + r[..k] in fs && fs[src + r[..k]].Dir?
                    && dst + r[..k] in fs && fs[dst + r[..k]].Dir?)
              && !(fs[src + r].Dir? && dst + r in fs && fs[dst + r].Dir?)
  {
    if r != [] && c.Legacy() + r in fs {
      forall k | 0 <= k < |r|
        ensures DirsMeet(c, fs, r[..k]) <==> IsDir(fs, c.Legacy() + r[..k]) && IsDir(fs, c.root + r[..k])
      {
      }
    }
  }

  /** A genuine loser: its root path is taken, by no file of the same content, and no recorded copy has it either. */
  lemma {:induction false} LosesIs(c: Config, s: Store, r: Path)
    requires c.blind == {} && Ends(c, s.fs, r)
    ensures var src, dst := c.root + [".lfbridge"] + r, c.root + r;
            Loses(c, s, r) <==>
              && dst in s.fs
              && !(&& s.fs[src].File? && s.fs[dst].File?
                   && SameContent(c.parse, IsYaml(src), s.fs[src].bytes, s.fs[dst].bytes))
              && !(&& s.fs[src].File? && src in s.marks && s.marks[src].quarantinedTo.Some?
                   && var copy := s.marks[src].quarantinedTo.value;
                      && copy in s.fs && s.fs[copy].File?
                      && SameContent(c.parse, IsYaml(src), s.fs[src].bytes, s.fs[copy].bytes))
  {
  }

  predicate Refused(r: Path)
    requires r != []
  {
    ".." <= r[0]
  }

  /** The directory that the slots of an entry lie in. */
  function SlotDir(c: Config, r: Path): Path
    requires c.root != [] && r != []
  {
    c.Quarantine() + r[..|r| - 1]
  }

  /** A loser can be put into the quarantine: it is a file, the way there is passable and a slot is free. */
  ghost predicate Placed(c: Config, fs: Tree, r: Path)
    requires c.Valid() && r != []
  {
    && IsFile(fs, c.Legacy() + r)
    && !Refused(r)
    && Passable(fs, SlotDir(c, r))
    && exists n: nat :: n < SLOTS && c.Slot(r, n) !in fs
  }

  /** That is: no name that starts with two dots, directories or nothing on the way, and a slot of the thousand free. */
  lemma {:induction false} PlacedIs(c: Config, fs: Tree, r: Path)
    requires c.Valid() && r != []
    ensures Placed(c, fs, r) <==>
              && c.root + [".lfbridge"] + r in fs && fs[c.root + [".lfbridge"] + r].File?
              && !(|r[0]| >= 2 && r[0][0] == '.' && r[0][1] == '.')
              && (forall k :: 0 <= k <= |SlotDir(c, r)| ==> SlotDir(c, r)[..k] !in fs || fs[SlotDir(c, r)[..k]].Dir?)
              && exists n: nat :: n < 1000 && c.Slot(r, n) !in fs
  {
    var dots := "..";
    assert dots <= r[0] <==> |r[0]| >= 2 && r[0][0] == dots[0] && r[0][1] == dots[1];
  }

  /** No later attempt will put this loser into the quarantine, or make anything there. */
  ghost predicate Barred(c: Config, fs: Tree, r: Path)
    requires c.Valid() && r != []
  {
    || Refused(r)
    || !Passable(fs, SlotDir(c, r))
    || (&& IsDir(fs, SlotDir(c, r))
        && (!IsFile(fs, c.Legacy() + r) || forall n: nat :: n < SLOTS ==> c.Slot(r, n) in fs))
  }

  ghost predicate Comparable(p: Path, q: Path) {
    p <= q || q <= p
  }

  /** Another entry's slots are, or lie below or above, one of this entry's, or its recorded place. */
  ghost predicate Crowds(c: Config, s: Store, r': Path, r: Path)
    requires c.Valid() && r != [] && r' != []
  {
    || (exists n': nat, n: nat {:trigger c.Slot(r', n'), c.Slot(r, n)} ::
          n' < SLOTS && n < SLOTS && Comparable(c.Slot(r', n'), c.Slot(r, n)))
    || (exists n': nat :: n' < SLOTS &&
            Marked(c, s, r) == Some(c.Slot(r', n')) && c.Slot(r', n') !in s.fs && c.Slot(r', n') !in c.blind)
  }

  /** No other loser can take this one's place in the quarantine, or block the way to it. */
  ghost predicate Independent(c: Config, s: Store, r: Path)
    requires c.Valid() && r != []
  {
    forall r' :: Loses(c, s, r') && r' != r ==> !Crowds(c, s, r', r)
  }

  /** No loser can take the place of another in the quarantine. */
  ghost predicate AllIndependent(c: Config, s: Store)
    requires c.Valid()
  {
    forall r :: Loses(c, s, r) ==> Independent(c, s, r)
  }

  /** The copy recorded for an entry is there from the start, is looked up in vain, or does not appear. */
  ghost predicate RecordSettled(c: Config, s: Store, r: Path)
    requires c.Valid() && r != []
  {
    var q := Marked(c, s, r);
    q.None? || q.value in s.fs || q.value in c.blind || Independent(c, s, r)
  }

  /** Two YAML files that differ in a key other than the stamp are a conflict, if no earlier copy is on record. */
  lemma {:induction false} OtherKeyConflicts(c: Config, s: Store, r: Path, key: string)
    requires Met(c, s.fs, r) && c.root + r !in c.blind && Marked(c, s, r).None?
    requires IsFile(s.fs, c.Legacy() + r) && IsFile(s.fs, c.root + r)
    requires var mine, other := c.parse(s.fs[c.Legacy() + r].bytes), c.parse(s.fs[c.root + r].bytes);
             && mine.Some? && mine.value.Mapping? && other.Some? && other.value.Mapping?
             && key != "updated_at"
             && var m, n := mine.value.entries, other.value.entries;
                !(key in m <==> key in n) || (key in m && key in n && m[key] != n[key])
    ensures Loses(c, s, r)
  {
    SameContentIs(c.parse, IsYaml(c.Legacy() + r), s.fs[c.Legacy() + r].bytes, s.fs[c.root + r].bytes);
  }

  // ---- what becomes of them ------------------------------------------------------------------------------

  ghost predicate Unaltered(a: Tree, b: Tree, p: Path) {
    forall q :: p <= q ==> Same(a, b, q)
  }

  /** An entry whose root path looks free, while a file stands there. */
  ghost predicate Overwrites(c: Config, fs: Tree, r: Path) {
    Met(c, fs, r) && c.root + r in c.blind && IsFile(fs, c.Legacy() + r) && IsFile(fs, c.root + r)
  }

  /** A loser whose first slot that looks free is the `n`-th, while a file stands there. */
  ghost predicate Wipes(c: Config, s: Store, r: Path, n: nat)
    requires c.Valid()
  {
    && Loses(c, s, r) && IsFile(s.fs, c.Legacy() + r) && !Refused(r)
    && n < SLOTS && IsFile(s.fs, c.Slot(r, n)) && c.Slot(r, n) in c.blind
    && (forall m: nat :: m < n ==> c.Sees(s.fs, c.Slot(r, m)))
    && RecordSettled(c, s, r)
  }

  /** Every record names a place in the quarantine. */
  ghost predicate MarksFit(c: Config, marks: map<Path, Record>) {
    forall p :: p in marks && marks[p].quarantinedTo.Some? ==> c.InQuarantine(marks[p].quarantinedTo.value)
  }

  /** The records but this entry's are as they were. */
  ghost predicate OthersMarked(c: Config, a: Store, b: Store, r: Path) {
    forall p :: p != c.Legacy() + r ==> (p in a.marks <==> p in b.marks) && (p in a.marks ==> b.marks[p] == a.marks[p])
  }

  /** Look-ups of the entries of `.lfbridge/` themselves succeed. */
  ghost predicate SeesEntries(c: Config) {
    forall p :: p in c.blind ==> !c.InLegacy(p)
  }

  /** The outcome with look-ups failing: what a hidden file costs. */
  ghost predicate Exposed(c: Config, a: Store, b: Store, rs: set<Path>)
    requires c.Valid()
  {
    && (forall p :: !At(c.Legacy(), rs, p) ==>
          (p in a.marks <==> p in b.marks) && (p in a.marks ==> b.marks[p] == a.marks[p]))
    && (forall p :: p in a.fs && !(c.root <= p) && (p !in c.blind || a.fs[p] == Dir) ==>
          p in b.fs && b.fs[p] == a.fs[p])
    && (forall p :: p in c.blind && !(c.root <= p) && !IsFile(a.fs, p) ==> !IsFile(b.fs, p))
    && (forall r :: Below(rs, r) && Overwrites(c, a.fs, r) ==>
          c.root + r in b.fs && b.fs[c.root + r] == a.fs[c.Legacy() + r])
    && (forall r, n: nat :: Below(rs, r) && Wipes(c, a, r, n) ==> !IsFile(b.fs, c.Slot(r, n)))
  }

  /** A failing look-up hides what stands at `p` from one of these entries, which is put in its place. */
  ghost predicate Taken(c: Config, a: Store, rs: set<Path>, p: Path)
    requires c.Valid()
  {
    || (exists r :: Below(rs, r) && Overwrites(c, a.fs, r) && p == c.root + r && a.fs[p] != a.fs[c.Legacy() + r])
    || (exists r, n: nat :: Below(rs, r) && Wipes(c, a, r, n) && p == c.Slot(r, n))
  }

  /** The content of a file of `.lfbridge/` rests where no failing look-up can cost it. */
  ghost predicate RestsSeen(c: Config, a: Tree, b: Tree, p: Path)
    requires c.Valid() && c.InLegacy(p) && IsFile(a, p)
  {
    exists q :: MayRest(c, p, q) && Keeps(c, a, p, b, q) && (q == p || q == c.root + c.Rel(p) || q !in c.blind)
  }

  /** `p` is the way to the slots of one of these entries, or one of the slots. */
  ghost predicate Deposited(c: Config, a: Store, b: Tree, rs: set<Path>, p: Path)
    requires c.Valid()
  {
    exists r :: Below(rs, r) && Loses(c, a, r) && p in b &&
                ((p <= SlotDir(c, r) && b[p] == Dir) || exists n: nat :: n < SLOTS && p == c.Slot(r, n))
  }

  /** The outcome with look-ups failing: what a hidden file costs is all that is lost. */
  ghost predicate Spared(c: Config, a: Store, b: Store, rs: set<Path>)
    requires c.Valid()
  {
    && (AllIndependent(c, a) ==>
          forall p :: p in a.fs && !c.InLegacy(p) && !Same(a.fs, b.fs, p) ==> Taken(c, a, rs, p))
    && (forall p :: IsFile(a.fs, p) && c.InLegacy(p) && p != c.Legacy() ==> RestsSeen(c, a.fs, b.fs, p))
    && (forall p :: p in b.fs && p !in a.fs && !(c.root <= p) ==> Deposited(c, a, b.fs, rs, p))
    && (forall r :: Loses(c, b, r) ==> Loses(c, a, r) && (Marked(c, b, r) == Marked(c, a, r) || Marked(c, b, r).None?))
  }

  /** What stood at and below an entry stands at and below its root path. */
  ghost predicate Arrived(c: Config, a: Tree, b: Tree, r: Path) {
    forall t: Path {:trigger c.root + r + t} ::
      (c.root + r + t in b <==> c.Legacy() + r + t in a)
      && (c.root + r + t in b && c.Legacy() + r + t in a ==> b[c.root + r + t] == a[c.Legacy() + r + t])
  }

  /** A loser stands, byte for byte, in one of its slots that was free. */
  ghost predicate Preserved(c: Config, a: Tree, b: Tree, r: Path)
    requires c.Valid() && r != []
  {
    exists n: nat :: n < SLOTS && c.Slot(r, n) !in a && c.Slot(r, n) in b
                     && c.Legacy() + r in a && b[c.Slot(r, n)] == a[c.Legacy() + r]
  }

  /** What becomes of one entry when every look-up succeeds. */
  ghost predicate Outcome(c: Config, a: Store, b: Store, r: Path)
    requires c.Valid() && r != []
  {
    var src := c.Legacy() + r;
    && (Unaltered(a.fs, b.fs, src) || Cleared(b.fs, src))
    && (!Loses(c, a, r) ==> Cleared(b.fs, src))
    && (Loses(c, a, r) && !Cleared(b.fs, src) ==> Marked(c, b, r).None?)
    && (Loses(c, a, r) && Independent(c, a, r) ==> (Cleared(b.fs, src) <==> Placed(c, a.fs, r)))
    && (Loses(c, a, r) && !Cleared(b.fs, src) ==> Barred(c, b.fs, r))
    && (Loses(c, a, r) && Barred(c, a.fs, r) && Marked(c, a, r).None? ==> !Cleared(b.fs, src))
    && (c.root + r !in a.fs ==> Arrived(c, a.fs, b.fs, r))
    && (Loses(c, a, r) && Independent(c, a, r) && Cleared(b.fs, src) ==> Preserved(c, a.fs, b.fs, r))
  }

  /** Something an entry leaves behind in the quarantine: the way to its slots, or itself in one of them. */
  ghost predicate Leaves(c: Config, a: Store, b: Store, r: Path, p: Path)
    requires c.Valid() && r != []
  {
    && Loses(c, a, r) && !Refused(r) && Passable(a.fs, SlotDir(c, r))
    && p in b.fs
    && ((p <= SlotDir(c, r) && b.fs[p] == Dir)
        || ((exists n: nat :: n < SLOTS && p == c.Slot(r, n)) && Cleared(b.fs, c.Legacy() + r)))
  }

  /** `p` is new outside the storage because of one of these entries. */
  ghost predicate Quarantined(c: Config, a: Store, b: Store, rs: set<Path>, p: Path)
    requires c.Valid()
  {
    exists r :: r != [] && Below(rs, r) && Leaves(c, a, b, r, p)
  }

  /** `p` is new in the storage because one of these entries has moved there. */
  ghost predicate Moved(c: Config, a: Tree, b: Tree, rs: set<Path>, p: Path) {
    exists r :: Below(rs, r) && Ends(c, a, r) && c.root + r !in a && c.root + r <= p && Cleared(b, c.Legacy() + r)
  }

  /** `p` is left because one of these entries stays. */
  ghost predicate Held(c: Config, a: Tree, b: Tree, rs: set<Path>, p: Path) {
    exists r :: Below(rs, r) && Ends(c, a, r) && c.Legacy() + r in b && Comparable(p, c.Legacy() + r)
  }

  /** The outcome when every look-up succeeds. */
  ghost predicate Exact(c: Config, a: Store, b: Store, rs: set<Path>)
    requires c.Valid()
  {
    && (forall p :: p in a.fs && !c.InLegacy(p) ==> p in b.fs && b.fs[p] == a.fs[p])
    && (forall r :: Below(rs, r) && Ends(c, a.fs, r) ==> Outcome(c, a, b, r))
    && (forall p :: p in b.fs && At(c.Legacy(), rs, p) ==> Held(c, a.fs, b.fs, rs, p))
    && (forall r :: (Ends(c, b.fs, r) ==> Ends(c, a.fs, r)) && (Loses(c, b, r) ==> Loses(c, a, r)))
    && (forall p :: p in b.fs && p !in a.fs && !(c.root <= p) ==> Quarantined(c, a, b, rs, p))
    && (forall p :: p in b.fs && p !in a.fs && c.root <= p ==> Moved(c, a.fs, b.fs, rs, p))
  }
}
