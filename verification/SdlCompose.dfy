/** Outcomes of a run without failing operations, put together: entries dealt with one after the other. */
module SdlCompose {
  import opened Wrappers
  import opened FileTree
  import opened SdlSafety
  import opened SdlMerge
  import opened SdlOutcome

  // ---- the entries still to come -------------------------------------------------------------------------

  lemma {:induction false} AboveNotBelow(rs: set<Path>, r: Path, k: nat)
    requires !Below(rs, r) && k <= |r|
    ensures !Below(rs, r[..k])
  {
    forall r1 | r1 in rs && r1 <= r[..k]
      ensures r1 <= r
    {
    }
  }

  /** An entry that is still to come is met as it was. */
  lemma {:induction false} MetElsewhere(c: Config, a: Tree, m: Tree, rs: set<Path>, r: Path, depth: nat)
    requires c.Valid() && Confined(c, a, m, rs, depth) && Proper(rs) && !Below(rs, r)
    requires r != [] && r[0] != LFBRIDGE
    ensures Met(c, a, r) <==> Met(c, m, r)
    ensures Ends(c, a, r) <==> Ends(c, m, r)
    ensures Same(a, m, c.Legacy() + r) && Same(a, m, c.root + r)
  {
    forall k | 0 <= k <= |r|
      ensures DirsMeet(c, a, r[..k]) <==> DirsMeet(c, m, r[..k])
    {
      AboveNotBelow(rs, r, k);
      ElsewhereSame(c, a, m, rs, r[..k], depth);
    }
    assert r[..|r|] == r;
    ElsewhereSame(c, a, m, rs, r, depth);
  }

  lemma {:induction false} NotBelowBoth(rs: set<Path>, more: set<Path>, r: Path)
    requires Separate(rs, more)
    ensures Below(more, r) ==> !Below(rs, r)
    ensures Below(rs, r) ==> !Below(more, r)
  {
    if Below(more, r) {
      SeparateBelow(rs, more, r);
    }
  }

  /** The subtree of an entry that has been dealt with is left alone. */
  lemma {:induction false} SubtreeElsewhere(c: Config, m: Tree, b: Tree, more: set<Path>, r: Path, depth: nat)
    requires c.Valid() && Confined(c, m, b, more, depth) && Proper(more)
    requires r != [] && r[0] != LFBRIDGE && !Below(more, r) && forall r1 :: r1 in more ==> !(r <= r1)
    ensures Unaltered(m, b, c.Legacy() + r)
  {
    forall q | c.Legacy() + r <= q
      ensures Same(m, b, q)
    {
      var tail := q[|c.Legacy()|..];
      assert q == c.Legacy() + tail && r <= tail by {
        assert c.Legacy() == (c.Legacy() + r)[..|c.Legacy()|] == q[..|c.Legacy()|];
        SamePrefix(c.Legacy(), r, tail);
      }
      if Below(more, tail) {
        var r1 :| r1 in more && r1 <= tail;
        PrefixesCompare(r1, r, tail);
        assert Below(more, r);
      }
      ElsewhereSame(c, m, b, more, tail, depth);
    }
  }

  /** So is what has arrived at its root path. */
  lemma {:induction false} ArrivedStays(c: Config, a: Tree, m: Tree, b: Tree, more: set<Path>, r: Path, depth: nat)
    requires c.Valid() && Confined(c, m, b, more, depth) && Proper(more) && Arrived(c, a, m, r)
    requires r != [] && r[0] != LFBRIDGE && !Below(more, r) && forall r1 :: r1 in more ==> !(r <= r1)
    ensures Arrived(c, a, b, r)
  {
    forall t: Path
      ensures Same(m, b, c.root + r + t)
    {
      assert c.root + r + t == c.root + (r + t) && r <= r + t && (r + t)[0] == r[0];
      if Below(more, r + t) {
        var r1 :| r1 in more && r1 <= r + t;
        PrefixesCompare(r1, r, r + t);
        assert false;
      }
      ElsewhereSame(c, m, b, more, r + t, depth);
    }
    forall t: Path
      ensures c.root + r + t in b <==> c.Legacy() + r + t in a
      ensures c.root + r + t in b && c.Legacy() + r + t in a ==> b[c.root + r + t] == a[c.Legacy() + r + t]
    {
      assert Same(m, b, c.root + r + t);
    }
  }

  lemma {:induction false} ArrivesFrom(c: Config, a: Tree, m: Tree, b: Tree, r: Path)
    requires Unaltered(a, m, c.Legacy() + r) && Arrived(c, m, b, r)
    ensures Arrived(c, a, b, r)
  {
    forall t: Path
      ensures c.root + r + t in b <==> c.Legacy() + r + t in a
      ensures c.root + r + t in b && c.Legacy() + r + t in a ==> b[c.root + r + t] == a[c.Legacy() + r + t]
    {
      assert c.Legacy() + r <= c.Legacy() + r + t;
      assert Same(a, m, c.Legacy() + r + t);
    }
  }

  lemma {:induction false} PreservedStays(c: Config, a: Tree, m: Tree, b: Tree, r: Path)
    requires c.Valid() && r != [] && Preserved(c, a, m, r)
    requires forall p :: p in m && !c.InLegacy(p) ==> p in b && b[p] == m[p]
    ensures Preserved(c, a, b, r)
  {
    var n: nat :| n < SLOTS && c.Slot(r, n) !in a && c.Slot(r, n) in m && m[c.Slot(r, n)] == a[c.Legacy() + r];
    SlotIsOutside(c, r, n);
  }

  lemma {:induction false} PreservedFrom(c: Config, a: Tree, m: Tree, b: Tree, r: Path)
    requires c.Valid() && r != [] && Preserved(c, m, b, r) && Same(a, m, c.Legacy() + r)
    requires forall p :: p in a && !c.InLegacy(p) ==> p in m && m[p] == a[p]
    ensures Preserved(c, a, b, r)
  {
    var n: nat :| n < SLOTS && c.Slot(r, n) !in m && c.Slot(r, n) in b && b[c.Slot(r, n)] == m[c.Legacy() + r];
    SlotIsOutside(c, r, n);
  }

  /** A recorded place lies outside the storage. */
  lemma {:induction false} MarkIsOutside(c: Config, s: Store, r: Path)
    requires c.Valid() && MarksFit(c, s.marks)
    ensures Marked(c, s, r).Some? ==> !(c.root <= Marked(c, s, r).value) && c.InQuarantine(Marked(c, s, r).value)
  {
    if Marked(c, s, r).Some? {
      QuarantineIsOutside(c, Marked(c, s, r).value);
    }
  }

  lemma {:induction false} SlotIsOutside(c: Config, r: Path, n: nat)
    requires c.Valid() && r != []
    ensures !(c.root <= c.Slot(r, n)) && !c.InLegacy(c.Slot(r, n)) && c.InQuarantine(c.Slot(r, n))
  {
    c.SlotLies(r, n);
    QuarantineIsOutside(c, c.Slot(r, n));
  }

  lemma {:induction false} MarkElsewhere(c: Config, a: Store, m: Store, rs: set<Path>, r: Path)
    requires c.Valid() && Exposed(c, a, m, rs) && !Below(rs, r)
    ensures Marked(c, a, r) == Marked(c, m, r)
  {
    assert (c.Legacy() + r)[|c.Legacy()|..] == r;
    assert !At(c.Legacy(), rs, c.Legacy() + r);
  }

  // ---- the quarantine ------------------------------------------------------------------------------------

  lemma {:induction false} DirLeadsToSlot(c: Config, r: Path, n: nat)
    requires c.Valid() && r != []
    ensures SlotDir(c, r) < c.Slot(r, n)
  {
    c.SlotLies(r, n);
    assert Parent(c.Slot(r, n)) == SlotDir(c, r);
  }

  /** What is new in the quarantine crowds the entry that could have used it. */
  lemma {:induction false} NewIsCrowding(c: Config, a: Store, m: Tree, rs: set<Path>, r: Path, p: Path)
    requires c.Valid() && r != [] && !Below(rs, r)
    requires Deposited(c, a, m, rs, p) && p !in a.fs
    ensures m[p].File? && p <= SlotDir(c, r) ==> !Independent(c, a, r)
    ensures forall n: nat :: n < SLOTS && p == c.Slot(r, n) ==> !Independent(c, a, r)
    ensures m[p].File? && p !in c.blind && Marked(c, a, r) == Some(p) ==> !Independent(c, a, r)
  {
    var r' :| Below(rs, r') && Loses(c, a, r') && p in m &&
              ((p <= SlotDir(c, r') && m[p] == Dir) || exists n: nat :: n < SLOTS && p == c.Slot(r', n));
    if p <= SlotDir(c, r') && m[p] == Dir {
      DirIsCrowding(c, a, r', r, p);
    } else {
      var n': nat :| n' < SLOTS && p == c.Slot(r', n');
      SlotIsCrowding(c, a, r', r, n');
    }
  }

  lemma {:induction false} DirIsCrowding(c: Config, a: Store, r': Path, r: Path, p: Path)
    requires c.Valid() && r != [] && r' != r && Loses(c, a, r') && p <= SlotDir(c, r')
    ensures forall n: nat :: n < SLOTS && p == c.Slot(r, n) ==> !Independent(c, a, r)
  {
    DirLeadsToSlot(c, r', 0);
    forall n: nat | n < SLOTS && p == c.Slot(r, n)
      ensures Crowds(c, a, r', r)
    {
      assert Comparable(c.Slot(r', 0), c.Slot(r, n));
    }
  }

  lemma {:induction false} SlotIsCrowding(c: Config, a: Store, r': Path, r: Path, n': nat)
    requires c.Valid() && r != [] && r' != r && Loses(c, a, r') && n' < SLOTS
    ensures c.Slot(r', n') <= SlotDir(c, r) ==> !Independent(c, a, r)
    ensures forall n: nat :: n < SLOTS && c.Slot(r', n') == c.Slot(r, n) ==> !Independent(c, a, r)
    ensures Marked(c, a, r) == Some(c.Slot(r', n')) && c.Slot(r', n') !in a.fs && c.Slot(r', n') !in c.blind ==>
              !Independent(c, a, r)
  {
    if c.Slot(r', n') <= SlotDir(c, r) {
      DirLeadsToSlot(c, r, 0);
      assert Comparable(c.Slot(r', n'), c.Slot(r, 0));
      assert Crowds(c, a, r', r);
    }
    forall n: nat | n < SLOTS && c.Slot(r', n') == c.Slot(r, n)
      ensures Crowds(c, a, r', r)
    {
      assert Comparable(c.Slot(r', n'), c.Slot(r, n));
    }
  }

  lemma {:induction false} QuarantinedIsDeposited(c: Config, a: Store, m: Store, rs: set<Path>, p: Path)
    requires c.Valid() && Quarantined(c, a, m, rs, p)
    ensures Deposited(c, a, m.fs, rs, p)
  {
    var r :| r != [] && Below(rs, r) && Leaves(c, a, m, r, p);
    assert Loses(c, a, r);
  }

  // ---- failing look-ups ----------------------------------------------------------------------------------

  lemma {:induction false} CrowdsBack(c: Config, a: Store, m: Store, rs: set<Path>, r': Path, r: Path)
    requires c.Valid() && r != [] && r' != []
    requires Exposed(c, a, m, rs) && (Marked(c, m, r) == Marked(c, a, r) || Marked(c, m, r).None?)
    requires Crowds(c, m, r', r)
    ensures Crowds(c, a, r', r)
  {
    if n': nat :| n' < SLOTS && Marked(c, m, r) == Some(c.Slot(r', n')) && c.Slot(r', n') !in m.fs
                  && c.Slot(r', n') !in c.blind {
      SlotIsOutside(c, r', n');
      assert c.Slot(r', n') !in a.fs;
    }
  }

  /** An entry that no other crowds is not crowded later. */
  lemma {:induction false} IndependentLater(c: Config, a: Store, m: Store, rs: set<Path>, r: Path)
    requires c.Valid() && r != [] && Exposed(c, a, m, rs) && Spared(c, a, m, rs)
    requires Marked(c, m, r) == Marked(c, a, r) || Marked(c, m, r).None?
    ensures Independent(c, a, r) ==> Independent(c, m, r)
  {
    forall r' | Loses(c, m, r') && r' != r && Crowds(c, m, r', r)
      ensures Loses(c, a, r') && Crowds(c, a, r', r)
    {
      CrowdsBack(c, a, m, rs, r', r);
    }
  }

  lemma {:induction false} AllIndependentLater(c: Config, a: Store, m: Store, rs: set<Path>)
    requires c.Valid() && Exposed(c, a, m, rs) && Spared(c, a, m, rs) && AllIndependent(c, a)
    ensures AllIndependent(c, m)
  {
    forall r | Loses(c, m, r)
      ensures Independent(c, m, r)
    {
      IndependentLater(c, a, m, rs, r);
    }
  }

  lemma {:induction false} RecordStaysSettled(c: Config, a: Store, m: Store, rs: set<Path>, r: Path)
    requires c.Valid() && r != [] && MarksFit(c, a.marks) && !Below(rs, r)
    requires Exposed(c, a, m, rs) && Spared(c, a, m, rs) && RecordSettled(c, a, r)
    ensures RecordSettled(c, m, r)
    ensures Recalled(c, m, r) && Same(a.fs, m.fs, c.Legacy() + r) ==> Recalled(c, a, r)
  {
    MarkElsewhere(c, a, m, rs, r);
    MarkIsOutside(c, a, r);
    IndependentLater(c, a, m, rs, r);
    var q := Marked(c, a, r);
    if Recalled(c, m, r) && q.value !in a.fs {
      NewIsCrowding(c, a, m.fs, rs, r, q.value);
    }
  }

  /** A slot that would have been wiped is still wiped, unless it has been already. */
  lemma {:induction false} WipesElsewhere(c: Config, a: Store, m: Store, rs: set<Path>, r: Path, n: nat, depth: nat)
    requires c.Valid() && WellFormed(a.fs) && NotNested(c, a.fs) && MarksFit(c, a.marks)
    requires Confined(c, a.fs, m.fs, rs, depth) && Exposed(c, a, m, rs) && Spared(c, a, m, rs)
    requires Proper(rs) && !Below(rs, r) && Wipes(c, a, r, n)
    ensures IsFile(m.fs, c.Slot(r, n)) ==> Wipes(c, m, r, n)
  {
    FirstPart(c, a.fs, r);
    MetElsewhere(c, a.fs, m.fs, rs, r, depth);
    RecordStaysSettled(c, a, m, rs, r);
    SeenSlotsStay(c, a, m, rs, r, n);
  }

  lemma {:induction false} SeenSlotsStay(c: Config, a: Store, m: Store, rs: set<Path>, r: Path, n: nat)
    requires c.Valid() && r != [] && Exposed(c, a, m, rs)
    requires forall k: nat :: k < n ==> c.Sees(a.fs, c.Slot(r, k))
    ensures forall k: nat :: k < n ==> c.Sees(m.fs, c.Slot(r, k))
  {
    forall k: nat | k < n
      ensures c.Sees(m.fs, c.Slot(r, k))
    {
      SlotIsOutside(c, r, k);
    }
  }

  lemma {:induction false} OverwritesLater(c: Config, a: Store, m: Store, b: Store, rs: set<Path>, more: set<Path>,
                                           r: Path, depth: nat)
    requires c.Valid() && WellFormed(a.fs) && NotNested(c, a.fs)
    requires Confined(c, a.fs, m.fs, rs, depth) && Exposed(c, a, m, rs)
    requires Confined(c, m.fs, b.fs, more, depth) && Exposed(c, m, b, more)
    requires Proper(rs) && Proper(more) && Separate(rs, more)
    requires Below(rs + more, r) && Overwrites(c, a.fs, r)
    ensures c.root + r in b.fs && b.fs[c.root + r] == a.fs[c.Legacy() + r]
  {
    FirstPart(c, a.fs, r);
    BelowBoth(rs, more, r);
    NotBelowBoth(rs, more, r);
    if Below(rs, r) {
      ElsewhereSame(c, m.fs, b.fs, more, r, depth);
    } else {
      MetElsewhere(c, a.fs, m.fs, rs, r, depth);
    }
  }

  lemma {:induction false} WipesLater(c: Config, a: Store, m: Store, b: Store, rs: set<Path>, more: set<Path>,
                                      r: Path, n: nat, depth: nat)
    requires c.Valid() && WellFormed(a.fs) && NotNested(c, a.fs) && MarksFit(c, a.marks)
    requires Confined(c, a.fs, m.fs, rs, depth) && Exposed(c, a, m, rs) && Spared(c, a, m, rs)
    requires Exposed(c, m, b, more)
    requires Proper(rs) && Separate(rs, more)
    requires Below(rs + more, r) && Wipes(c, a, r, n)
    ensures !IsFile(b.fs, c.Slot(r, n))
  {
    SlotIsOutside(c, r, n);
    BelowBoth(rs, more, r);
    NotBelowBoth(rs, more, r);
    if !Below(rs, r) {
      WipesElsewhere(c, a, m, rs, r, n, depth);
    }
  }

  lemma {:induction false} MarksTogether(c: Config, a: Store, m: Store, b: Store, rs: set<Path>, more: set<Path>,
                                         p: Path)
    requires c.Valid() && Exposed(c, a, m, rs) && Exposed(c, m, b, more)
    requires !At(c.Legacy(), rs + more, p)
    ensures (p in a.marks <==> p in b.marks) && (p in a.marks ==> b.marks[p] == a.marks[p])
  {
    if c.Legacy() <= p {
      BelowBoth(rs, more, p[|c.Legacy()|..]);
    }
  }

  lemma {:induction false} ExposedTogether(c: Config, a: Store, m: Store, b: Store, rs: set<Path>, more: set<Path>,
                                           depth: nat)
    requires c.Valid() && WellFormed(a.fs) && NotNested(c, a.fs) && MarksFit(c, a.marks)
    requires Confined(c, a.fs, m.fs, rs, depth) && Exposed(c, a, m, rs) && Spared(c, a, m, rs)
    requires Confined(c, m.fs, b.fs, more, depth) && Exposed(c, m, b, more)
    requires Proper(rs) && Proper(more) && Separate(rs, more)
    ensures Exposed(c, a, b, rs + more)
  {
    forall p | !At(c.Legacy(), rs + more, p)
      ensures (p in a.marks <==> p in b.marks) && (p in a.marks ==> b.marks[p] == a.marks[p])
    {
      MarksTogether(c, a, m, b, rs, more, p);
    }
    forall r | Below(rs + more, r) && Overwrites(c, a.fs, r)
      ensures c.root + r in b.fs && b.fs[c.root + r] == a.fs[c.Legacy() + r]
    {
      OverwritesLater(c, a, m, b, rs, more, r, depth);
    }
    forall r, n: nat | Below(rs + more, r) && Wipes(c, a, r, n)
      ensures !IsFile(b.fs, c.Slot(r, n))
    {
      WipesLater(c, a, m, b, rs, more, r, n, depth);
    }
  }

  // ---- what is spared ------------------------------------------------------------------------------------

  /** An entry that still loses later lost at the start, if it has not been dealt with in between. */
  lemma {:induction false} WipesCame(c: Config, a: Store, m: Store, rs: set<Path>, r: Path, n: nat)
    requires c.Valid() && MarksFit(c, a.marks) && AllIndependent(c, a)
    requires Exposed(c, a, m, rs) && Spared(c, a, m, rs) && !Below(rs, r)
    requires r != [] && Same(a.fs, m.fs, c.Legacy() + r) && Same(a.fs, m.fs, c.Slot(r, n))
    requires Wipes(c, m, r, n)
    ensures Wipes(c, a, r, n)
  {
    forall k: nat | k < n
      ensures c.Sees(a.fs, c.Slot(r, k))
    {
      SlotIsOutside(c, r, k);
      if c.Slot(r, k) !in a.fs {
        NewIsCrowding(c, a, m.fs, rs, r, c.Slot(r, k));
      }
    }
  }

  lemma {:induction false} TakenLater(c: Config, a: Store, m: Store, b: Store, rs: set<Path>, more: set<Path>, p: Path,
                                      depth: nat)
    requires c.Valid() && WellFormed(a.fs) && WellFormed(m.fs) && NotNested(c, a.fs) && NotNested(c, m.fs)
    requires MarksFit(c, a.marks) && AllIndependent(c, a)
    requires Confined(c, a.fs, m.fs, rs, depth) && Exposed(c, a, m, rs) && Spared(c, a, m, rs)
    requires Spared(c, m, b, more) && Proper(rs) && Separate(rs, more)
    requires p in a.fs && !c.InLegacy(p) && !Same(a.fs, b.fs, p)
    ensures Taken(c, a, rs + more, p)
  {
    AllIndependentLater(c, a, m, rs);
    forall r
      ensures Below(rs + more, r) <==> Below(rs, r) || Below(more, r)
    {
      BelowBoth(rs, more, r);
    }
    if Same(a.fs, m.fs, p) {
      assert Taken(c, m, more, p);
      if r :| Below(more, r) && Overwrites(c, m.fs, r) && p == c.root + r && m.fs[p] != m.fs[c.Legacy() + r] {
        NotBelowBoth(rs, more, r);
        FirstPart(c, m.fs, r);
        MetElsewhere(c, a.fs, m.fs, rs, r, depth);
      } else {
        var r, n: nat :| Below(more, r) && Wipes(c, m, r, n) && p == c.Slot(r, n);
        NotBelowBoth(rs, more, r);
        FirstPart(c, m.fs, r);
        ElsewhereSame(c, a.fs, m.fs, rs, r, depth);
        WipesCame(c, a, m, rs, r, n);
      }
    } else {
      assert Taken(c, a, rs, p);
    }
  }

  /** Where the content of an entry's file rests once it has been dealt with, it stays. */
  lemma {:induction false} RestsLater(c: Config, a: Store, m: Store, b: Store, more: set<Path>, r: Path, depth: nat)
    requires c.Valid() && r != [] && r[0] != LFBRIDGE && IsFile(a.fs, c.Legacy() + r)
    requires c.InLegacy(c.Legacy() + r) && c.Rel(c.Legacy() + r) == r
    requires RestsSeen(c, a.fs, m.fs, c.Legacy() + r)
    requires Confined(c, m.fs, b.fs, more, depth) && Exposed(c, m, b, more) && Proper(more) && !Below(more, r)
    ensures RestsSeen(c, a.fs, b.fs, c.Legacy() + r)
  {
    var p := c.Legacy() + r;
    var q :| MayRest(c, p, q) && Keeps(c, a.fs, p, m.fs, q) && (q == p || q == c.root + c.Rel(p) || q !in c.blind);
    ElsewhereSame(c, m.fs, b.fs, more, r, depth);
    if q != p && q != c.root + r {
      assert c.InQuarantine(q);
      QuarantineIsOutside(c, q);
    }
    assert Keeps(c, a.fs, p, b.fs, q);
  }

  /** The content of an entry's file that is still to come rests where it would have rested. */
  lemma {:induction false} RestsComes(c: Config, a: Tree, m: Tree, b: Tree, p: Path)
    requires c.Valid() && c.InLegacy(p) && IsFile(a, p) && Same(a, m, p)
    requires RestsSeen(c, m, b, p)
    ensures RestsSeen(c, a, b, p)
  {
    var q :| MayRest(c, p, q) && Keeps(c, m, p, b, q) && (q == p || q == c.root + c.Rel(p) || q !in c.blind);
    assert Keeps(c, a, p, b, q);
  }

  lemma {:induction false} RelOfPath(c: Config, p: Path) returns (r: Path)
    requires c.InLegacy(p) && p != c.Legacy()
    ensures r != [] && p == c.Legacy() + r && c.Rel(p) == r
  {
    r := p[|c.Legacy()|..];
    assert p == c.Legacy() + r;
  }

  lemma {:induction false} RestsBoth(c: Config, a: Store, m: Store, b: Store, rs: set<Path>, more: set<Path>, p: Path,
                                     depth: nat)
    requires c.Valid() && WellFormed(a.fs) && NotNested(c, a.fs)
    requires Confined(c, a.fs, m.fs, rs, depth) && Spared(c, a, m, rs)
    requires Confined(c, m.fs, b.fs, more, depth) && Exposed(c, m, b, more) && Spared(c, m, b, more)
    requires Proper(rs) && Proper(more) && Separate(rs, more)
    requires IsFile(a.fs, p) && c.InLegacy(p) && p != c.Legacy()
    ensures RestsSeen(c, a.fs, b.fs, p)
  {
    var r := RelOfPath(c, p);
    FirstPart(c, a.fs, r);
    NotBelowBoth(rs, more, r);
    if Below(more, r) {
      ElsewhereSame(c, a.fs, m.fs, rs, r, depth);
      RestsComes(c, a.fs, m.fs, b.fs, p);
    } else {
      RestsLater(c, a, m, b, more, r, depth);
    }
  }

  lemma {:induction false} DepositedLater(c: Config, a: Store, m: Store, b: Store, rs: set<Path>, more: set<Path>,
                                          p: Path)
    requires c.Valid() && Spared(c, a, m, rs) && Exposed(c, m, b, more) && Spared(c, m, b, more)
    requires p in b.fs && p !in a.fs && !(c.root <= p)
    ensures Deposited(c, a, b.fs, rs + more, p)
  {
    forall r
      ensures Below(rs + more, r) <==> Below(rs, r) || Below(more, r)
    {
      BelowBoth(rs, more, r);
    }
    if p in m.fs {
      assert Deposited(c, a, m.fs, rs, p);
      var r :| Below(rs, r) && Loses(c, a, r) && p in m.fs &&
               ((p <= SlotDir(c, r) && m.fs[p] == Dir) || exists n: nat :: n < SLOTS && p == c.Slot(r, n));
      assert Below(rs + more, r);
    } else {
      assert Deposited(c, m, b.fs, more, p);
      var r :| Below(more, r) && Loses(c, m, r) && p in b.fs &&
               ((p <= SlotDir(c, r) && b.fs[p] == Dir) || exists n: nat :: n < SLOTS && p == c.Slot(r, n));
      assert Below(rs + more, r) && Loses(c, a, r);
    }
  }

  lemma {:induction false} SparedTogether(c: Config, a: Store, m: Store, b: Store, rs: set<Path>, more: set<Path>,
                                          depth: nat)
    requires c.Valid() && WellFormed(a.fs) && WellFormed(m.fs) && NotNested(c, a.fs) && MarksFit(c, a.marks)
    requires Confined(c, a.fs, m.fs, rs, depth) && Exposed(c, a, m, rs) && Spared(c, a, m, rs)
    requires Confined(c, m.fs, b.fs, more, depth) && Exposed(c, m, b, more) && Spared(c, m, b, more)
    requires Proper(rs) && Proper(more) && Separate(rs, more)
    ensures Spared(c, a, b, rs + more)
  {
    assert c.InLegacy(c.Legacy() + [LFBRIDGE]);
    if AllIndependent(c, a) {
      forall p | p in a.fs && !c.InLegacy(p) && !Same(a.fs, b.fs, p)
        ensures Taken(c, a, rs + more, p)
      {
        TakenLater(c, a, m, b, rs, more, p, depth);
      }
    }
    forall p | IsFile(a.fs, p) && c.InLegacy(p) && p != c.Legacy()
      ensures RestsSeen(c, a.fs, b.fs, p)
    {
      RestsBoth(c, a, m, b, rs, more, p, depth);
    }
    forall p | p in b.fs && p !in a.fs && !(c.root <= p)
      ensures Deposited(c, a, b.fs, rs + more, p)
    {
      DepositedLater(c, a, m, b, rs, more, p);
    }
  }

  // ---- every look-up succeeding --------------------------------------------------------------------------

  /** The way to an entry's slots stays as it was, and so do the slots. */
  lemma {:induction false} PlacedElsewhere(c: Config, a: Store, m: Store, rs: set<Path>, r: Path)
    requires c.Valid() && r != []
    requires Exact(c, a, m, rs) && !Below(rs, r) && Same(a.fs, m.fs, c.Legacy() + r)
    requires Independent(c, a, r)
    ensures Passable(a.fs, SlotDir(c, r)) <==> Passable(m.fs, SlotDir(c, r))
    ensures Placed(c, a.fs, r) <==> Placed(c, m.fs, r)
  {
    var d := SlotDir(c, r);
    PassableLater(c, a, m, rs, r);
    forall n: nat | n < SLOTS
      ensures c.Slot(r, n) in a.fs <==> c.Slot(r, n) in m.fs
    {
      SlotIsOutside(c, r, n);
      if c.Slot(r, n) in m.fs && c.Slot(r, n) !in a.fs {
        QuarantinedIsDeposited(c, a, m, rs, c.Slot(r, n));
        NewIsCrowding(c, a, m.fs, rs, r, c.Slot(r, n));
        assert false;
      }
    }
  }

  lemma {:induction false} AboveIsOutside(c: Config, r: Path, p: Path)
    requires c.Valid() && r != [] && p <= SlotDir(c, r)
    ensures !c.InLegacy(p)
    ensures c.root <= p ==> false
  {
    if c.root <= p {
      SlotIsOutside(c, r, 0);
      DirLeadsToSlot(c, r, 0);
      assert false;
    }
    if c.InLegacy(p) {
      LegacyIsInRoot(c, p);
    }
  }

  lemma {:induction false} PassableLater(c: Config, a: Store, m: Store, rs: set<Path>, r: Path)
    requires c.Valid() && r != []
    requires Exact(c, a, m, rs) && !Below(rs, r)
    ensures Passable(m.fs, SlotDir(c, r)) ==> Passable(a.fs, SlotDir(c, r))
    ensures Independent(c, a, r) && Passable(a.fs, SlotDir(c, r)) ==> Passable(m.fs, SlotDir(c, r))
  {
    var d := SlotDir(c, r);
    forall k | 0 <= k <= |d|
      ensures d[..k] in a.fs ==> d[..k] in m.fs && m.fs[d[..k]] == a.fs[d[..k]]
      ensures Independent(c, a, r) && d[..k] in m.fs && d[..k] !in a.fs ==> m.fs[d[..k]] == Dir
    {
      AboveIsOutside(c, r, d[..k]);
      if d[..k] in m.fs && d[..k] !in a.fs {
        QuarantinedIsDeposited(c, a, m, rs, d[..k]);
        NewIsCrowding(c, a, m.fs, rs, r, d[..k]);
      }
    }
  }

  /** Whether an entry still to come loses is settled at the start, unless another takes its recorded place. */
  lemma {:induction false} LosesElsewhere(c: Config, a: Store, m: Store, rs: set<Path>, r: Path, depth: nat)
    requires c.Valid() && WellFormed(a.fs) && NotNested(c, a.fs) && MarksFit(c, a.marks)
    requires Confined(c, a.fs, m.fs, rs, depth) && Exposed(c, a, m, rs) && Exact(c, a, m, rs)
    requires Proper(rs) && !Below(rs, r) && Ends(c, a.fs, r)
    ensures Loses(c, m, r) ==> Loses(c, a, r)
    ensures Independent(c, a, r) || Marked(c, a, r).None? ==> (Loses(c, a, r) <==> Loses(c, m, r))
  {
    FirstPart(c, a.fs, r);
    MetElsewhere(c, a.fs, m.fs, rs, r, depth);
    MarkElsewhere(c, a, m, rs, r);
    MarkIsOutside(c, a, r);
    var q := Marked(c, a, r);
    if Loses(c, a, r) && Recalled(c, m, r) {
      if q.value !in a.fs {
        QuarantinedIsDeposited(c, a, m, rs, q.value);
        NewIsCrowding(c, a, m.fs, rs, r, q.value);
      }
    }
  }

  lemma {:induction false} ClearedSame(m: Tree, b: Tree, p: Path)
    requires Unaltered(m, b, p)
    ensures Cleared(m, p) <==> Cleared(b, p)
  {
    if Cleared(m, p) {
      forall q | q in b
        ensures !(p <= q)
      {
        assert p <= q ==> Same(m, b, q);
      }
    }
    if Cleared(b, p) {
      forall q | q in m
        ensures !(p <= q)
      {
        assert p <= q ==> Same(m, b, q);
      }
    }
  }

  lemma {:induction false} UnalteredBoth(a: Tree, m: Tree, b: Tree, p: Path)
    requires Unaltered(a, m, p) && Unaltered(m, b, p)
    ensures Unaltered(a, b, p)
  {
    forall q | p <= q
      ensures Same(a, b, q)
    {
      assert Same(a, m, q) && Same(m, b, q);
    }
  }

  /** What bars a loser goes on barring it. */
  lemma {:induction false} BarredStays(c: Config, a: Tree, m: Tree, r: Path)
    requires c.Valid() && r != [] && Same(a, m, c.Legacy() + r)
    requires forall p :: p in a && !c.InLegacy(p) ==> p in m && m[p] == a[p]
    ensures Barred(c, a, r) ==> Barred(c, m, r)
  {
    var d := SlotDir(c, r);
    forall k | 0 <= k <= |d|
      ensures d[..k] in a ==> d[..k] in m && m[d[..k]] == a[d[..k]]
    {
      AboveIsOutside(c, r, d[..k]);
    }
    assert d[..|d|] == d;
    forall n: nat
      ensures c.Slot(r, n) in a ==> c.Slot(r, n) in m
    {
      SlotIsOutside(c, r, n);
    }
  }

  /** What has become of an entry is not changed by what is done elsewhere afterwards. */
  lemma {:induction false} OutcomeKept(c: Config, a: Store, m: Store, b: Store, more: set<Path>, r: Path, depth: nat)
    requires c.Valid() && WellFormed(a.fs) && NotNested(c, a.fs)
    requires Ends(c, a.fs, r) && Outcome(c, a, m, r)
    requires Confined(c, m.fs, b.fs, more, depth) && Exposed(c, m, b, more) && Exact(c, m, b, more)
    requires Proper(more) && !Below(more, r) && forall r1 :: r1 in more ==> !(r <= r1)
    ensures Outcome(c, a, b, r)
  {
    FirstPart(c, a.fs, r);
    SubtreeElsewhere(c, m.fs, b.fs, more, r, depth);
    ClearedSame(m.fs, b.fs, c.Legacy() + r);
    MarkElsewhere(c, m, b, more, r);
    assert c.Legacy() + r <= c.Legacy() + r;
    BarredStays(c, m.fs, b.fs, r);
    if Unaltered(a.fs, m.fs, c.Legacy() + r) {
      UnalteredBoth(a.fs, m.fs, b.fs, c.Legacy() + r);
    }
    if c.root + r !in a.fs {
      ArrivedStays(c, a.fs, m.fs, b.fs, more, r, depth);
    }
    if Preserved(c, a.fs, m.fs, r) {
      PreservedStays(c, a.fs, m.fs, b.fs, r);
    }
  }

  /** What becomes of an entry that is still to come is what would have become of it at the start. */
  lemma {:induction false} OutcomeComes(c: Config, a: Store, m: Store, b: Store, rs: set<Path>, r: Path, depth: nat)
    requires c.Valid() && WellFormed(a.fs) && NotNested(c, a.fs) && MarksFit(c, a.marks)
    requires Confined(c, a.fs, m.fs, rs, depth) && Exposed(c, a, m, rs) && Spared(c, a, m, rs) && Exact(c, a, m, rs)
    requires Proper(rs) && !Below(rs, r) && forall r1 :: r1 in rs ==> !(r <= r1)
    requires Ends(c, a.fs, r) && Outcome(c, m, b, r)
    ensures Outcome(c, a, b, r)
  {
    FirstPart(c, a.fs, r);
    SubtreeElsewhere(c, a.fs, m.fs, rs, r, depth);
    LosesElsewhere(c, a, m, rs, r, depth);
    MarkElsewhere(c, a, m, rs, r);
    IndependentLater(c, a, m, rs, r);
    assert c.Legacy() + r <= c.Legacy() + r;
    BarredStays(c, a.fs, m.fs, r);
    if Independent(c, a, r) {
      PlacedElsewhere(c, a, m, rs, r);
    }
    if Unaltered(m.fs, b.fs, c.Legacy() + r) {
      UnalteredBoth(a.fs, m.fs, b.fs, c.Legacy() + r);
    }
    MetElsewhere(c, a.fs, m.fs, rs, r, depth);
    if c.root + r !in a.fs {
      ArrivesFrom(c, a.fs, m.fs, b.fs, r);
    }
    if Preserved(c, m.fs, b.fs, r) {
      PreservedFrom(c, a.fs, m.fs, b.fs, r);
    }
  }

  lemma {:induction false} HeldLater(c: Config, a: Store, m: Store, b: Store, rs: set<Path>, more: set<Path>, p: Path,
                                     depth: nat)
    requires c.Valid() && WellFormed(a.fs) && NotNested(c, a.fs)
    requires Exact(c, a, m, rs)
    requires Confined(c, m.fs, b.fs, more, depth) && Exact(c, m, b, more)
    requires NotNested(c, m.fs) && Proper(more) && Separate(rs, more)
    requires p in b.fs && At(c.Legacy(), rs + more, p)
    ensures Held(c, a.fs, b.fs, rs + more, p)
  {
    var t := p[|c.Legacy()|..];
    BelowBoth(rs, more, t);
    NotBelowBoth(rs, more, t);
    if Below(rs, t) {
      assert p in m.fs && At(c.Legacy(), rs, p);
      var r :| Below(rs, r) && Ends(c, a.fs, r) && c.Legacy() + r in m.fs && Comparable(p, c.Legacy() + r);
      FirstPart(c, a.fs, r);
      NotBelowBoth(rs, more, r);
      ElsewhereSame(c, m.fs, b.fs, more, r, depth);
      BelowBoth(rs, more, r);
      assert Below(rs + more, r) && c.Legacy() + r in b.fs;
    } else {
      var r :| Below(more, r) && Ends(c, m.fs, r) && c.Legacy() + r in b.fs && Comparable(p, c.Legacy() + r);
      BelowBoth(rs, more, r);
      assert Below(rs + more, r) && Ends(c, a.fs, r);
    }
  }

  lemma {:induction false} ClearedLater(c: Config, m: Tree, b: Tree, r: Path)
    requires forall q :: q in b && c.InLegacy(q) ==> q in m
    requires Cleared(m, c.Legacy() + r)
    ensures Cleared(b, c.Legacy() + r)
  {
    assert c.Legacy() <= c.Legacy() + r;
    forall q | q in b
      ensures !(c.Legacy() + r <= q)
    {
      if c.Legacy() + r <= q {
        assert c.InLegacy(q);
      }
    }
  }

  lemma {:induction false} LeavesLater(c: Config, a: Store, m: Store, b: Store, more: set<Path>, r: Path, p: Path)
    requires c.Valid() && r != []
    requires Exact(c, m, b, more)
    requires forall q :: q in b.fs && c.InLegacy(q) ==> q in m.fs
    requires Leaves(c, a, m, r, p)
    ensures Leaves(c, a, b, r, p)
  {
    if p <= SlotDir(c, r) {
      AboveIsOutside(c, r, p);
    } else {
      var n: nat :| n < SLOTS && p == c.Slot(r, n);
      SlotIsOutside(c, r, n);
    }
    if Cleared(m.fs, c.Legacy() + r) {
      ClearedLater(c, m.fs, b.fs, r);
    }
  }

  lemma {:induction false} LeavesComes(c: Config, a: Store, m: Store, b: Store, rs: set<Path>, r: Path, p: Path)
    requires c.Valid() && r != []
    requires Exact(c, a, m, rs) && !Below(rs, r)
    requires Leaves(c, m, b, r, p)
    ensures Leaves(c, a, b, r, p)
  {
    PassableLater(c, a, m, rs, r);
  }

  lemma {:induction false} QuarantinedLater(c: Config, a: Store, m: Store, b: Store, rs: set<Path>, more: set<Path>,
                                            p: Path)
    requires c.Valid() && Separate(rs, more)
    requires Exact(c, a, m, rs) && Exact(c, m, b, more)
    requires forall q :: q in b.fs && c.InLegacy(q) ==> q in m.fs
    requires p in b.fs && p !in a.fs && !(c.root <= p)
    ensures Quarantined(c, a, b, rs + more, p)
  {
    if p in m.fs {
      var r :| r != [] && Below(rs, r) && Leaves(c, a, m, r, p);
      LeavesLater(c, a, m, b, more, r, p);
      BelowBoth(rs, more, r);
      assert Below(rs + more, r);
    } else {
      var r :| r != [] && Below(more, r) && Leaves(c, m, b, r, p);
      NotBelowBoth(rs, more, r);
      LeavesComes(c, a, m, b, rs, r, p);
      BelowBoth(rs, more, r);
      assert Below(rs + more, r);
    }
  }

  lemma {:induction false} MovedLater(c: Config, a: Store, m: Store, b: Store, rs: set<Path>, more: set<Path>, p: Path)
    requires c.Valid() && WellFormed(m.fs) && NotNested(c, m.fs)
    requires Exact(c, a, m, rs) && Exact(c, m, b, more)
    requires forall q :: q in b.fs && c.InLegacy(q) ==> q in m.fs
    requires p in b.fs && p !in a.fs && c.root <= p
    ensures Moved(c, a.fs, b.fs, rs + more, p)
  {
    if p in m.fs {
      var r :| Below(rs, r) && Ends(c, a.fs, r) && c.root + r !in a.fs && c.root + r <= p
        && Cleared(m.fs, c.Legacy() + r);
      ClearedLater(c, m.fs, b.fs, r);
      BelowBoth(rs, more, r);
      assert Below(rs + more, r);
    } else {
      var r :| Below(more, r) && Ends(c, m.fs, r) && c.root + r !in m.fs && c.root + r <= p
        && Cleared(b.fs, c.Legacy() + r);
      FirstPart(c, m.fs, r);
      BelowBoth(rs, more, r);
      assert Below(rs + more, r) && Ends(c, a.fs, r) && c.root + r !in a.fs;
    }
  }

  lemma {:induction false} OutcomeTogether(c: Config, a: Store, m: Store, b: Store, rs: set<Path>, more: set<Path>,
                                           r: Path,
                                           depth: nat)
    requires c.Valid() && WellFormed(a.fs) && NotNested(c, a.fs) && NotNested(c, m.fs) && MarksFit(c, a.marks)
    requires Confined(c, a.fs, m.fs, rs, depth) && Exposed(c, a, m, rs) && Spared(c, a, m, rs) && Exact(c, a, m, rs)
    requires Confined(c, m.fs, b.fs, more, depth) && Exposed(c, m, b, more) && Exact(c, m, b, more)
    requires Proper(rs) && Proper(more) && Separate(rs, more)
    requires Below(rs + more, r) && Ends(c, a.fs, r)
    ensures Outcome(c, a, b, r)
  {
    BelowBoth(rs, more, r);
    if Below(rs, r) {
      SeparateBelow(more, rs, r);
      OutcomeKept(c, a, m, b, more, r, depth);
    } else {
      SeparateBelow(rs, more, r);
      FirstPart(c, a.fs, r);
      MetElsewhere(c, a.fs, m.fs, rs, r, depth);
      OutcomeComes(c, a, m, b, rs, r, depth);
    }
  }

  lemma {:induction false} ExactTogether(c: Config, a: Store, m: Store, b: Store, rs: set<Path>, more: set<Path>,
                                         depth: nat)
    requires c.Valid() && WellFormed(a.fs) && WellFormed(m.fs) && NotNested(c, a.fs) && MarksFit(c, a.marks)
    requires Confined(c, a.fs, m.fs, rs, depth) && Exposed(c, a, m, rs) && Spared(c, a, m, rs) && Exact(c, a, m, rs)
    requires Confined(c, m.fs, b.fs, more, depth) && Exposed(c, m, b, more) && Exact(c, m, b, more)
    requires Proper(rs) && Proper(more) && Separate(rs, more)
    ensures Exact(c, a, b, rs + more)
  {
    ConfinedTogether(c, a.fs, m.fs, b.fs, rs, more, depth);
    forall r | Below(rs + more, r) && Ends(c, a.fs, r)
      ensures Outcome(c, a, b, r)
    {
      OutcomeTogether(c, a, m, b, rs, more, r, depth);
    }
    forall p | p in b.fs && At(c.Legacy(), rs + more, p)
      ensures Held(c, a.fs, b.fs, rs + more, p)
    {
      HeldLater(c, a, m, b, rs, more, p, depth);
    }
    forall p | p in b.fs && p !in a.fs && !(c.root <= p)
      ensures Quarantined(c, a, b, rs + more, p)
    {
      QuarantinedLater(c, a, m, b, rs, more, p);
    }
    forall p | p in b.fs && p !in a.fs && c.root <= p
      ensures Moved(c, a.fs, b.fs, rs + more, p)
    {
      MovedLater(c, a, m, b, rs, more, p);
    }
  }
}
