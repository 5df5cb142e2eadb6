/** A file system as a finite map from absolute paths to what stands there, and the changes made to it. */
module FileTree {
  import opened Bytes

  type Path = seq<string>

  datatype Node = Dir | File(bytes: seq<byte>)

  type Tree = map<Path, Node>

  /** Everything stands in a directory, up to the root. */
  ghost predicate WellFormed(fs: Tree) {
    forall p, k :: p in fs && 0 <= k < |p| ==> p[..k] in fs && fs[p[..k]] == Dir
  }

  predicate IsDir(fs: Tree, p: Path) {
    p in fs && fs[p] == Dir
  }

  predicate IsFile(fs: Tree, p: Path) {
    p in fs && fs[p].File?
  }

  /** Neither path lies at or below the other. */
  ghost predicate Apart(p: Path, q: Path) {
    !(p <= q) && !(q <= p)
  }

  function Parent(p: Path): Path
    requires p != []
  {
    p[..|p| - 1]
  }

  predicate Empty(fs: Tree, dir: Path) {
    forall p :: p in fs ==> !(dir < p)
  }

  lemma {:induction false} PrefixesCompare(p: Path, q: Path, r: Path)
    requires p <= r && q <= r
    ensures p <= q || q <= p
  {
    if |p| <= |q| {
      assert p == r[..|p|] == q[..|p|];
    } else {
      assert q == r[..|q|] == p[..|q|];
    }
  }

  lemma {:induction false} SamePrefix(x: Path, r: Path, r': Path)
    ensures x + r <= x + r' <==> r <= r'
  {
    if x + r <= x + r' {
      assert r == (x + r)[|x|..] == (x + r')[..|x + r|][|x|..] == r'[..|r|];
    }
    if r <= r' {
      assert x + r' == x + r + r'[|r|..];
    }
  }

  // ---- the changes -------------------------------------------------------------------------------------

  /** A rename can end at `dst`: nothing stands there, or a file for a file, or an empty directory for a directory. */
  predicate Renameable(fs: Tree, src: Path, dst: Path) {
    || dst !in fs
    || (IsFile(fs, src) && IsFile(fs, dst))
    || (IsDir(fs, src) && IsDir(fs, dst) && Empty(fs, dst))
  }

  /** The subtree at `src` put at `dst`, in place of what stands there. */
  function Renamed(fs: Tree, src: Path, dst: Path): (r: Tree)
    requires src in fs
    ensures forall q :: q in r <==> (q in fs && !(src <= q) && !(dst <= q)) || (dst <= q && src + q[|dst|..] in fs)
    ensures forall q :: q in r && !(dst <= q) ==> r[q] == fs[q]
    ensures forall q :: q in r && dst <= q ==> src + q[|dst|..] in fs && r[q] == fs[src + q[|dst|..]]
  {
    var kept := set p | p in fs && !(src <= p) && !(dst <= p);
    var moved := set p | p in fs && src <= p :: dst + p[|src|..];
    assert forall p :: p in fs && src <= p ==> src + (dst + p[|src|..])[|dst|..] == p;
    assert forall q :: q in moved ==> dst <= q && src + q[|dst|..] in fs;
    assert forall q :: dst <= q && src + q[|dst|..] in fs ==> q in moved by {
      forall q | dst <= q && src + q[|dst|..] in fs
        ensures q in moved
      {
        var p := src + q[|dst|..];
        assert dst + p[|src|..] == q;
      }
    }
    map q | q in kept + moved :: if dst <= q then fs[src + q[|dst|..]] else fs[q]
  }

  /** What a rename onto an existing file leaves: the source's bytes, and nothing at the source. */
  function RenamedOver(fs: Tree, src: Path, dst: Path): Tree
    requires src in fs
  {
    (fs - {src})[dst := fs[src]]
  }

  /** The names of a directory's entries. */
  function Names(fs: Tree, dir: Path): (names: set<string>)
    ensures forall n :: n in names <==> dir + [n] in fs
  {
    var names := set p | p in fs && |p| == |dir| + 1 && dir < p :: p[|dir|];
    assert forall p :: p in fs && |p| == |dir| + 1 && dir < p ==> p == dir + [p[|dir|]];
    assert forall n :: (dir + [n])[|dir|] == n;
    names
  }

  /** No file stands at `d` or on the way to it. */
  predicate Passable(fs: Tree, d: Path) {
    forall k :: 0 <= k <= |d| ==> d[..k] !in fs || fs[d[..k]] == Dir
  }

  /** `d` and the directories on the way to it, where they are missing. */
  function WithDirs(fs: Tree, d: Path): (r: Tree)
    ensures forall p :: p in r <==> p in fs || p <= d
    ensures forall p :: p in r ==> r[p] == if p in fs then fs[p] else Dir
  {
    var way := set k | 0 <= k <= |d| :: d[..k];
    assert forall p :: p <= d ==> p == d[..|p|];
    assert forall p :: p in way <==> p <= d;
    map p | p in fs.Keys + way :: if p in fs then fs[p] else Dir
  }

  /** A bound on the length of every path. */
  lemma {:induction false} Depth(fs: Tree) returns (d: nat)
    ensures forall p :: p in fs ==> |p| <= d
  {
    d := 0;
    var rest := fs.Keys;
    while rest != {}
      invariant rest <= fs.Keys
      invariant forall p :: p in fs && p !in rest ==> |p| <= d
    {
      var p :| p in rest;
      rest := rest - {p};
      d := if |p| > d then |p| else d;
    }
  }

  /** Nothing but `dst` itself stands at or below the end of a rename. */
  lemma {:induction false} RenameableIsBare(fs: Tree, src: Path, dst: Path)
    requires WellFormed(fs) && src in fs && src != dst
    requires Renameable(fs, src, dst)
    ensures forall p :: p in fs && dst <= p ==> p == dst
    ensures !(dst <= src)
  {
    if dst !in fs || fs[dst].File? {
      NothingBelow(fs, dst);
    }
  }

  lemma {:induction false} RenamedIsWellFormed(fs: Tree, src: Path, dst: Path)
    requires WellFormed(fs)
    requires src in fs && src != [] && dst != []
    requires !(src <= dst) && Renameable(fs, src, dst) && IsDir(fs, Parent(dst))
    ensures WellFormed(Renamed(fs, src, dst))
  {
    RenameableIsBare(fs, src, dst);
    var r := Renamed(fs, src, dst);
    forall q, k | q in r && 0 <= k < |q|
      ensures q[..k] in r && r[q[..k]] == Dir
    {
      if dst <= q && k >= |dst| {
        var p := src + q[|dst|..];
        var j := |src| + k - |dst|;
        assert p[..j] == src + q[..k][|dst|..];
        assert p[..j] in fs && fs[p[..j]] == Dir;
        assert dst <= q[..k];
      } else if dst <= q {
        var up := Parent(dst);
        assert q[..k] == dst[..k] == (if k == |up| then up else up[..k]);
        assert q[..k] in fs && fs[q[..k]] == Dir;
        assert !(src <= q[..k]);
        assert !(dst <= q[..k]);
      } else {
        assert q[..k] in fs && fs[q[..k]] == Dir;
        assert !(src <= q[..k]) && !(dst <= q[..k]);
      }
    }
  }

  lemma {:induction false} BelowPasses(fs: Tree, dir: Path, p: Path)
    requires WellFormed(fs)
    requires p in fs && dir < p
    ensures IsDir(fs, dir)
  {
    assert p[..|dir|] == dir;
  }

  lemma {:induction false} ChildOf(fs: Tree, dir: Path, p: Path) returns (n: string)
    requires WellFormed(fs) && p in fs && dir < p
    ensures dir + [n] in fs && dir + [n] <= p
  {
    n := p[|dir|];
    assert p[..|dir| + 1] == dir + [n];
    if |p| == |dir| + 1 {
      assert p == p[..|dir| + 1];
    }
  }

  /** Nothing stands below a path where nothing stands, nor below a file. */
  lemma {:induction false} NothingBelow(fs: Tree, dst: Path)
    requires WellFormed(fs)
    requires dst !in fs || fs[dst].File?
    ensures forall p :: p in fs && dst <= p ==> p == dst
  {
    forall p | p in fs && dst <= p
      ensures p == dst
    {
      if |dst| < |p| {
        BelowPasses(fs, dst, p);
      }
    }
  }

  lemma {:induction false} PutIsWellFormed(fs: Tree, p: Path, n: Node)
    requires WellFormed(fs)
    requires p != [] && IsDir(fs, Parent(p))
    requires p !in fs || fs[p].File?
    ensures WellFormed(fs[p := n])
  {
    var r := fs[p := n];
    NothingBelow(fs, p);
    forall q, k | q in r && 0 <= k < |q|
      ensures q[..k] in r && r[q[..k]] == Dir
    {
      if q == p {
        assert p[..k] == if k == |p| - 1 then Parent(p) else Parent(p)[..k];
        assert p[..k] != p;
      } else {
        assert q[..k] in fs;
        assert q[..k] <= q;
      }
    }
  }

  lemma {:induction false} RemoveIsWellFormed(fs: Tree, p: Path)
    requires WellFormed(fs)
    requires Empty(fs, p)
    ensures WellFormed(fs - {p})
  {
    var r := fs - {p};
    forall q, k | q in r && 0 <= k < |q|
      ensures q[..k] in r && r[q[..k]] == Dir
    {
      assert q[..k] in fs;
      assert q[..k] < q;
    }
  }

  lemma {:induction false} DirsAreWellFormed(fs: Tree, d: Path)
    requires WellFormed(fs) && Passable(fs, d)
    ensures WellFormed(WithDirs(fs, d))
  {
    var r := WithDirs(fs, d);
    forall q, k | q in r && 0 <= k < |q|
      ensures q[..k] in r && r[q[..k]] == Dir
    {
      if q in fs {
        assert q[..k] in fs;
      } else {
        assert q[..k] == d[..k];
      }
    }
  }
}
