/**
 What the migration of a storage's `.lfbridge/` directory to its root promises of the files: where each may
 end up, and when two files count as the same content.
 */
module SdlSafety {
  import opened Wrappers
  import opened Bytes
  import opened FileTree

  const LFBRIDGE := ".lfbridge"
  const MEBIBYTE := 1024 * 1024
  const STAMP := "updated_at"

  datatype Yaml = Null | Scalar(text: string) | List(items: seq<Yaml>) | Mapping(entries: map<string, Yaml>)

  /** How many names a quarantined file may be given: its own, and `.1` to `.999` after it. */
  const SLOTS := 1000

  function Decimal(n: nat): string {
    if n < 10 then ["0123456789"[n]] else Decimal(n / 10) + ["0123456789"[n % 10]]
  }

  /** What a row of digits says. */
  function Number(digits: string): nat {
    if digits == "" then 0
    else 10 * Number(digits[..|digits| - 1]) +
         var d := digits[|digits| - 1];
         if '0' <= d <= '9' then d as nat - '0' as nat else 0
  }

  lemma {:induction false} DecimalReads(n: nat)
    ensures Decimal(n) != "" && Number(Decimal(n)) == n
    ensures forall d :: d in Decimal(n) ==> '0' <= d <= '9'
  {
    var digits := "0123456789";
    assert digits[n % 10] as nat == '0' as nat + n % 10;
    if n < 10 {
      assert Decimal(n)[..0] == "";
    } else {
      DecimalReads(n / 10);
      var front := Decimal(n / 10);
      assert Decimal(n) == front + [digits[n % 10]];
      assert Decimal(n)[..|Decimal(n)| - 1] == front;
    }
  }

  /**
   Where things are, what the YAML parser makes of a file (nothing when it rejects the file), and the paths
   whose look-ups fail.
   */
  datatype Config = Config(root: Path, state: Path, parse: seq<byte> -> Option<Yaml>, blind: set<Path>) {
    ghost predicate Valid() {
      root != [] && Apart(root, state)
    }

    function Legacy(): Path {
      root + [LFBRIDGE]
    }

    function Quarantines(): Path {
      state + ["migration_conflicts"]
    }

    function Quarantine(): Path
      requires root != []
    {
      Quarantines() + [root[|root| - 1]]
    }

    ghost predicate InLegacy(p: Path) {
      Legacy() <= p
    }

    /** The path below `.lfbridge/`. */
    function Rel(p: Path): Path
      requires |p| > |root|
    {
      p[|root| + 1..]
    }

    ghost predicate InQuarantine(p: Path) {
      Quarantines() < p
    }

    /** A look-up of `p` finds it there. */
    predicate Sees(fs: Tree, p: Path) {
      p in fs && p !in blind
    }

    /** The `n`-th place in the quarantine for the entry `r` below `.lfbridge/`. */
    function Slot(r: Path, n: nat): Path
      requires root != [] && r != []
    {
      var name := r[|r| - 1];
      Quarantine() + r[..|r| - 1] + [if n == 0 then name else name + "." + Decimal(n)]
    }

    lemma {:induction false} SlotLies(r: Path, n: nat)
      requires root != [] && r != []
      ensures var t := Slot(r, n); t != [] && Parent(t) == Quarantine() + r[..|r| - 1] && Quarantines() < t
    {
      var up := Quarantine() + r[..|r| - 1];
      assert up[..|Quarantines()|] == Quarantines();
    }
  }

  /** The slots of an entry: its own name first, then that with a dot and a number after it; no two are the same. */
  lemma {:induction false} SlotsAre(c: Config, r: Path, n: nat)
    requires c.root != [] && r != []
    ensures var t := c.Slot(r, n);
            && |t| == |c.state| + 2 + |r| && t[..|c.state|] == c.state && t[|c.state|] == "migration_conflicts"
            && t[|c.state| + 1] == c.root[|c.root| - 1]
            && t[|c.state| + 2..|t| - 1] == r[..|r| - 1]
            && (n == 0 ==> t[|t| - 1] == r[|r| - 1])
            && (n > 0 ==> r[|r| - 1] + "." <= t[|t| - 1] && Number(t[|t| - 1][|r[|r| - 1]| + 1..]) == n)
  {
    var t, name := c.Slot(r, n), r[|r| - 1];
    var last := if n == 0 then name else name + "." + Decimal(n);
    assert t == c.state + ["migration_conflicts"] + [c.root[|c.root| - 1]] + r[..|r| - 1] + [last];
    if n > 0 {
      DecimalReads(n);
      assert last[..|name| + 1] == name + "." && last[|name| + 1..] == Decimal(n);
    }
  }

  lemma {:induction false} SlotsDiffer(c: Config, r: Path, n: nat, k: nat)
    requires c.root != [] && r != [] && n != k
    ensures c.Slot(r, n) != c.Slot(r, k)
  {
    SlotsAre(c, r, n);
    SlotsAre(c, r, k);
  }

  // ---- equal content -----------------------------------------------------------------------------------

  function Lower(ch: char): char {
    if 'A' <= ch <= 'Z' then ch - 'A' + 'a' else ch
  }

  predicate EndsWith(s: string, suffix: string) {
    && |suffix| <= |s|
    && forall i :: 0 <= i < |suffix| ==> Lower(s[|s| - |suffix| + i]) == suffix[i]
  }

  predicate IsYaml(p: Path) {
    p != [] && (EndsWith(p[|p| - 1], ".yml") || EndsWith(p[|p| - 1], ".yaml"))
  }

  function WithoutStamp(y: Yaml): Yaml {
    match y
    case Mapping(m) => Mapping(m - {STAMP})
    case _ => y
  }

  predicate IsDocument(y: Option<Yaml>) {
    y.Some? && (y.value.List? || y.value.Mapping?)
  }

  /** The same bytes, or small YAML documents that differ at most in their top-level stamp. */
  predicate SameContent(parse: seq<byte> -> Option<Yaml>, yaml: bool, a: seq<byte>, b: seq<byte>) {
    || a == b
    || (&& yaml
        && |a| <= MEBIBYTE && |b| <= MEBIBYTE
        && IsDocument(parse(a)) && IsDocument(parse(b))
        && WithoutStamp(parse(a).value) == WithoutStamp(parse(b).value))
  }

  /**
   When two files of different bytes are the same content: both are YAML of at most a mebibyte, and equal lists, or
   mappings that agree on every key but the stamp.
   */
  lemma {:induction false} SameContentIs(parse: seq<byte> -> Option<Yaml>, yaml: bool, a: seq<byte>, b: seq<byte>)
    requires a != b
    ensures SameContent(parse, yaml, a, b) <==>
              && yaml && |a| <= 0x10_0000 && |b| <= 0x10_0000
              && parse(a).Some? && parse(b).Some?
              && match (parse(a).value, parse(b).value) {
                   case (List(xs), List(ys)) => xs == ys
                   case (Mapping(m), Mapping(n)) =>
                     forall key :: key != "updated_at" ==>
                       (key in m <==> key in n) && (key in m && key in n ==> m[key] == n[key])
                   case _ => false
                 }
  {
    if parse(a).Some? && parse(b).Some? && parse(a).value.Mapping? && parse(b).value.Mapping? {
      WithoutStampAgrees(parse(a).value.entries, parse(b).value.entries);
    }
  }

  lemma {:induction false} WithoutStampAgrees(m: map<string, Yaml>, n: map<string, Yaml>)
    ensures WithoutStamp(Mapping(m)) == WithoutStamp(Mapping(n)) <==>
              forall key :: key != "updated_at" ==>
                (key in m <==> key in n) && (key in m && key in n ==> m[key] == n[key])
  {
    var m', n' := m - {"updated_at"}, n - {"updated_at"};
    if m' == n' {
      forall key | key != "updated_at"
        ensures (key in m <==> key in n) && (key in m && key in n ==> m[key] == n[key])
      {
        assert key in m' <==> key in n';
      }
    }
    if forall key :: key != "updated_at" ==> (key in m <==> key in n) && (key in m && key in n ==> m[key] == n[key]) {
      assert m'.Keys == n'.Keys;
    }
  }

  /** The names of YAML files, in letters of either case. */
  lemma {:induction false} YamlNames(p: Path)
    requires p != []
    ensures var name := p[|p| - 1];
            var n := |name|;
            IsYaml(p) <==>
              || (&& n >= 4 && name[n - 4] == '.' && name[n - 3] in "yY" && name[n - 2] in "mM" && name[n - 1] in "lL")
              || (&& n >= 5 && name[n - 5] == '.' && name[n - 4] in "yY" && name[n - 3] in "aA" && name[n - 2] in "mM"
                  && name[n - 1] in "lL")
  {
    var name := p[|p| - 1];
    Endings(name);
    forall i | 0 <= i < |name|
      ensures Lower(name[i]) == '.' <==> name[i] == '.'
      ensures Lower(name[i]) == 'y' <==> name[i] in "yY"
      ensures Lower(name[i]) == 'a' <==> name[i] in "aA"
      ensures Lower(name[i]) == 'm' <==> name[i] in "mM"
      ensures Lower(name[i]) == 'l' <==> name[i] in "lL"
    {
      LowerLetters(name[i]);
    }
  }

  lemma {:induction false} LowerLetters(ch: char)
    ensures Lower(ch) == '.' <==> ch == '.'
    ensures Lower(ch) == 'y' <==> ch in "yY"
    ensures Lower(ch) == 'a' <==> ch in "aA"
    ensures Lower(ch) == 'm' <==> ch in "mM"
    ensures Lower(ch) == 'l' <==> ch in "lL"
  {
    if 'A' <= ch <= 'Z' {
      assert Lower(ch) as int == ch as int + 32;
    }
  }

  lemma {:induction false} Endings(s: string)
    ensures EndsWith(s, ".yml") <==>
              && |s| >= 4 && Lower(s[|s| - 4]) == '.' && Lower(s[|s| - 3]) == 'y'
              && Lower(s[|s| - 2]) == 'm' && Lower(s[|s| - 1]) == 'l'
    ensures EndsWith(s, ".yaml") <==>
              && |s| >= 5 && Lower(s[|s| - 5]) == '.' && Lower(s[|s| - 4]) == 'y' && Lower(s[|s| - 3]) == 'a'
              && Lower(s[|s| - 2]) == 'm' && Lower(s[|s| - 1]) == 'l'
  {
    var yml, yaml := ".yml", ".yaml";
    assert yml[0] == '.' && yml[1] == 'y' && yml[2] == 'm' && yml[3] == 'l';
    assert yaml[0] == '.' && yaml[1] == 'y' && yaml[2] == 'a' && yaml[3] == 'm' && yaml[4] == 'l';
    if |s| >= 4 {
      assert s[|s| - 4 + 0] == s[|s| - 4] && s[|s| - 4 + 1] == s[|s| - 3];
      assert s[|s| - 4 + 2] == s[|s| - 2] && s[|s| - 4 + 3] == s[|s| - 1];
    }
    if |s| >= 5 {
      assert s[|s| - 5 + 0] == s[|s| - 5] && s[|s| - 5 + 1] == s[|s| - 4] && s[|s| - 5 + 2] == s[|s| - 3];
      assert s[|s| - 5 + 3] == s[|s| - 2] && s[|s| - 5 + 4] == s[|s| - 1];
    }
  }

  // ---- survival ----------------------------------------------------------------------------------------

  /** `q` is the root path of the entry `r` below `.lfbridge/`, once any leading `.lfbridge` parts are shed. */
  ghost predicate IsHome(root: Path, r: Path, q: Path)
    decreases |r|
  {
    r != [] && (q == root + r || (r[0] == LFBRIDGE && IsHome(root, r[1..], q)))
  }

  /** `q` holds, in `after`, the content that file `p` had in `before`. */
  ghost predicate Keeps(c: Config, before: Tree, p: Path, after: Tree, q: Path)
    requires IsFile(before, p)
  {
    IsFile(after, q) && SameContent(c.parse, IsYaml(p), before[p].bytes, after[q].bytes)
  }

  /** Where a file below `.lfbridge/` may be found afterwards: in place, at the root, or in the quarantine. */
  ghost predicate MayRest(c: Config, p: Path, q: Path)
    requires c.Valid() && c.InLegacy(p)
  {
    q == p || IsHome(c.root, c.Rel(p), q) || c.InQuarantine(q)
  }

  ghost predicate Survives(c: Config, before: Tree, after: Tree, p: Path)
    requires c.Valid() && c.InLegacy(p) && IsFile(before, p)
  {
    exists q :: MayRest(c, p, q) && Keeps(c, before, p, after, q)
  }

  /** Nothing outside `.lfbridge/` has changed, and no content inside it is lost. */
  ghost predicate Safe(c: Config, before: Tree, after: Tree)
    requires c.Valid()
  {
    && (forall p :: p in before && !c.InLegacy(p) ==> p in after && after[p] == before[p])
    && (forall p :: IsFile(before, p) && c.InLegacy(p) ==> Survives(c, before, after, p))
  }

  lemma {:induction false} QuarantineIsOutside(c: Config, q: Path)
    requires c.Valid()
    requires c.Quarantines() <= q
    ensures !c.InLegacy(q) && !(c.root <= q)
  {
    if c.root <= q {
      PrefixesCompare(c.root, c.state, q);
      assert false;
    }
  }

  /** Shedding `.lfbridge` parts in two goes is shedding them in one. */
  lemma {:induction false} HomeOfHome(root: Path, r: Path, s: Path, q: Path)
    requires IsHome(root, r, root + [LFBRIDGE] + s) && IsHome(root, s, q)
    ensures IsHome(root, r, q)
    decreases |r|
  {
    if root + [LFBRIDGE] + s == root + r {
      assert r == (root + r)[|root|..] == (root + [LFBRIDGE] + s)[|root|..] == [LFBRIDGE] + s;
      assert r[1..] == s;
    } else {
      HomeOfHome(root, r[1..], s, q);
    }
  }

  lemma {:induction false} HomeKeepsName(root: Path, r: Path, q: Path)
    requires IsHome(root, r, q)
    ensures q != [] && r != [] && q[|q| - 1] == r[|r| - 1]
    decreases |r|
  {
    if q != root + r {
      HomeKeepsName(root, r[1..], q);
    }
  }

  lemma {:induction false} SafeIsReflexive(c: Config, fs: Tree)
    requires c.Valid()
    ensures Safe(c, fs, fs)
  {
    forall p | IsFile(fs, p) && c.InLegacy(p)
      ensures Survives(c, fs, fs, p)
    {
      assert MayRest(c, p, p) && Keeps(c, fs, p, fs, p);
    }
  }

  /** Safe steps make a safe run. */
  lemma {:induction false} SafeIsTransitive(c: Config, a: Tree, b: Tree, d: Tree)
    requires c.Valid()
    requires Safe(c, a, b) && Safe(c, b, d)
    ensures Safe(c, a, d)
  {
    forall p | IsFile(a, p) && c.InLegacy(p)
      ensures Survives(c, a, d, p)
    {
      var q :| MayRest(c, p, q) && Keeps(c, a, p, b, q);
      SurvivesOnward(c, a, b, d, p, q);
    }
  }

  lemma {:induction false} SurvivesOnward(c: Config, a: Tree, b: Tree, d: Tree, p: Path, q: Path)
    requires c.Valid()
    requires Safe(c, b, d)
    requires IsFile(a, p) && c.InLegacy(p) && MayRest(c, p, q) && Keeps(c, a, p, b, q)
    ensures Survives(c, a, d, p)
  {
    if !c.InLegacy(q) {
      assert Keeps(c, a, p, d, q);
    } else {
      var q' :| MayRest(c, q, q') && Keeps(c, b, q, d, q');
      if q != p {
        if c.InQuarantine(q) {
          QuarantineIsOutside(c, q);
        }
        assert q == c.root + [LFBRIDGE] + c.Rel(q);
        HomeKeepsName(c.root, c.Rel(p), q);
        if IsHome(c.root, c.Rel(q), q') {
          HomeOfHome(c.root, c.Rel(p), c.Rel(q), q');
        }
      }
      assert MayRest(c, p, q') && Keeps(c, a, p, d, q');
    }
  }

  // ---- the safe steps ----------------------------------------------------------------------------------

  /** Adding where nothing stood is safe. */
  lemma {:induction false} GrowingIsSafe(c: Config, before: Tree, after: Tree)
    requires c.Valid()
    requires forall p :: p in before ==> p in after && after[p] == before[p]
    ensures Safe(c, before, after)
  {
    forall p | IsFile(before, p) && c.InLegacy(p)
      ensures Survives(c, before, after, p)
    {
      assert MayRest(c, p, p) && Keeps(c, before, p, after, p);
    }
  }

  /** Where a move takes a path at or below the entry is the home of that path. */
  lemma {:induction false} MovedHome(c: Config, r: Path, p: Path) returns (q: Path)
    requires c.Valid() && r != [] && c.Legacy() + r <= p
    ensures c.root + r <= q && c.Legacy() + r + q[|c.root + r|..] == p
    ensures c.InLegacy(p) && MayRest(c, p, q) && q == c.root + c.Rel(p)
  {
    var t := p[|c.Legacy() + r|..];
    q := c.root + r + t;
    assert p == c.Legacy() + (r + t);
    assert c.Rel(p) == r + t && q == c.root + c.Rel(p);
    assert q[|c.root + r|..] == t;
  }

  /** Moving an entry of `.lfbridge/` to its root path is safe, unless it takes the place of a file of other bytes. */
  lemma {:induction false} MovingIsSafe(c: Config, fs: Tree, r: Path)
    requires c.Valid() && WellFormed(fs)
    requires r != [] && c.Legacy() + r in fs && Renameable(fs, c.Legacy() + r, c.root + r)
    requires c.root + r in fs ==> fs[c.root + r] == fs[c.Legacy() + r]
    ensures Safe(c, fs, Renamed(fs, c.Legacy() + r, c.root + r))
    ensures forall p :: p in fs && !(c.Legacy() + r <= p) ==>
              p in Renamed(fs, c.Legacy() + r, c.root + r) && Renamed(fs, c.Legacy() + r, c.root + r)[p] == fs[p]
  {
    var src, dst := c.Legacy() + r, c.root + r;
    RenameableIsBare(fs, src, dst);
    var after := Renamed(fs, src, dst);
    assert c.Legacy() <= src;
    forall p | p in fs && !(src <= p)
      ensures p in after && after[p] == fs[p]
    {
      if dst <= p {
        assert p == dst && src + p[|dst|..] == src;
      }
    }
    forall p | IsFile(fs, p) && c.InLegacy(p)
      ensures Survives(c, fs, after, p)
    {
      if src <= p {
        var q := MovedHome(c, r, p);
        assert q in after && after[q] == fs[p];
        assert Keeps(c, fs, p, after, q);
      } else {
        assert MayRest(c, p, p) && Keeps(c, fs, p, after, p);
      }
    }
  }

  /** Dropping a file of `.lfbridge/` whose content rests at its home or in the quarantine is safe. */
  lemma {:induction false} DroppingIsSafe(c: Config, fs: Tree, p: Path, q: Path)
    requires c.Valid()
    requires IsFile(fs, p) && c.InLegacy(p)
    requires q != p && MayRest(c, p, q) && Keeps(c, fs, p, fs, q)
    ensures Safe(c, fs, fs - {p})
  {
    var after := fs - {p};
    assert Keeps(c, fs, p, after, q);
    forall f | IsFile(fs, f) && c.InLegacy(f)
      ensures Survives(c, fs, after, f)
    {
      if f != p {
        assert MayRest(c, f, f) && Keeps(c, fs, f, after, f);
      }
    }
  }

  /** Removing a directory of `.lfbridge/` is safe. */
  lemma {:induction false} PruningIsSafe(c: Config, fs: Tree, dir: Path)
    requires c.Valid()
    requires IsDir(fs, dir) && c.InLegacy(dir)
    ensures Safe(c, fs, fs - {dir})
  {
    var after := fs - {dir};
    forall f | IsFile(fs, f) && c.InLegacy(f)
      ensures Survives(c, fs, after, f)
    {
      assert MayRest(c, f, f) && Keeps(c, fs, f, after, f);
    }
  }

  /**
   The guard on the move: renaming a file of `.lfbridge/` to its root path is safe exactly when no other
   node stands there. A look-up that wrongly reports the root path absent would lose what stands at it.
   */
  lemma {:induction false} MoveNeedsAFreePath(c: Config, fs: Tree, r: Path)
    requires c.Valid()
    requires r != [] && r[0] != LFBRIDGE
    requires IsFile(fs, c.Legacy() + r)
    ensures var src, dst := c.Legacy() + r, c.root + r;
            Safe(c, fs, RenamedOver(fs, src, dst)) <==> (dst !in fs || fs[dst] == fs[src])
  {
    var src, dst := c.Legacy() + r, c.root + r;
    var after := RenamedOver(fs, src, dst);
    assert dst[|c.root|] == r[0] && !c.InLegacy(dst);
    if dst !in fs || fs[dst] == fs[src] {
      forall f | IsFile(fs, f) && c.InLegacy(f)
        ensures Survives(c, fs, after, f)
      {
        if f == src {
          assert c.Rel(f) == r;
          assert MayRest(c, f, dst) && Keeps(c, fs, f, after, dst);
        } else {
          assert MayRest(c, f, f) && Keeps(c, fs, f, after, f);
        }
      }
    }
  }
}
