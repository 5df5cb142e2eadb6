/** The directory walk of a bulk scan: an explicit stack against the recursive listing it stands for. */
module ScanWalk {
  import opened Seqs
  import opened Wrappers

  type Path = seq<string>

  datatype Kind = Image | Video

  datatype File = File(path: Path, kind: Kind, size: nat, mtime: real, dataless: bool, duration: real)

  /** What `ReadDir` says of one entry. A regular file may vanish between the listing and its stat. */
  datatype Entry =
    | Symlink(name: string)
    | Special(name: string)
    | Regular(name: string, stat: Option<Stat>)
    | Directory(name: string, dir: Dir)

  datatype Stat = Stat(size: nat, mtime: real, dataless: bool)

  /** Entries are in name order. */
  datatype Dir = Unreadable | Listed(entries: seq<Entry>)

  /** The filters of a request: what a file name is taken for, and which directories are entered. */
  datatype Request = Request(kindOf: string -> Option<Kind>, enters: Path -> bool, recursive: bool, maxFiles: int)

  const DEFAULT_MAX := 500_000

  function Limit(req: Request): (n: nat)
    ensures n >= 1
  {
    if req.maxFiles <= 0 then DEFAULT_MAX else req.maxFiles
  }

  /** A directory to visit. */
  datatype Visit = Visit(path: Path, dir: Dir)

  // ---- the recursive listing ---------------------------------------------------------------------------

  function OwnFile(req: Request, at: Path, e: Entry): Option<File> {
    if e.Regular? && req.kindOf(e.name).Some? && e.stat.Some? then
      var s := e.stat.value;
      Some(File(at + [e.name], req.kindOf(e.name).value, s.size, s.mtime, s.dataless, 0.0))
    else None
  }

  predicate Enters(req: Request, at: Path, e: Entry) {
    e.Directory? && req.recursive && req.enters(at + [e.name])
  }

  function OwnFiles(req: Request, at: Path, es: seq<Entry>): seq<File> {
    if es == [] then []
    else
      var f := OwnFile(req, at, es[0]);
      (if f.Some? then [f.value] else []) + OwnFiles(req, at, es[1..])
  }

  function Subdirs(req: Request, at: Path, es: seq<Entry>): (vs: seq<Visit>)
    ensures |vs| <= |es|
  {
    if es == [] then []
    else (if Enters(req, at, es[0]) then [Visit(at + [es[0].name], es[0].dir)] else []) + Subdirs(req, at, es[1..])
  }

  function Size(d: Dir): nat {
    if d.Unreadable? then 1 else 1 + EntrySize(d.entries)
  }

  function EntrySize(es: seq<Entry>): nat {
    if es == [] then 0 else (if es[0].Directory? then Size(es[0].dir) else 0) + EntrySize(es[1..])
  }

  function VisitSize(vs: seq<Visit>): nat {
    if vs == [] then 0 else Size(vs[0].dir) + VisitSize(vs[1..])
  }

  lemma {:induction false} SubdirsAreSmaller(req: Request, at: Path, es: seq<Entry>)
    ensures VisitSize(Subdirs(req, at, es)) <= EntrySize(es)
  {
    if es != [] {
      SubdirsAreSmaller(req, at, es[1..]);
      if Enters(req, at, es[0]) {
        var v := Visit(at + [es[0].name], es[0].dir);
        assert ([v] + Subdirs(req, at, es[1..]))[1..] == Subdirs(req, at, es[1..]);
      } else {
        assert [] + Subdirs(req, at, es[1..]) == Subdirs(req, at, es[1..]);
      }
    }
  }

  /** A directory's own matching files, then each directory it enters, in name order. */
  function Files(req: Request, v: Visit): seq<File>
    decreases Size(v.dir), 0
  {
    if v.dir.Unreadable? then []
    else
      SubdirsAreSmaller(req, v.path, v.dir.entries);
      OwnFiles(req, v.path, v.dir.entries) + FilesOf(req, Subdirs(req, v.path, v.dir.entries))
  }

  function FilesOf(req: Request, vs: seq<Visit>): seq<File>
    decreases VisitSize(vs), 1 + |vs|
  {
    if vs == [] then [] else Files(req, vs[0]) + FilesOf(req, vs[1..])
  }

  /** How many directories the whole listing fails to read. */
  function Unread(req: Request, v: Visit): nat
    decreases Size(v.dir), 0
  {
    if v.dir.Unreadable? then 1
    else
      SubdirsAreSmaller(req, v.path, v.dir.entries);
      UnreadOf(req, Subdirs(req, v.path, v.dir.entries))
  }

  function UnreadOf(req: Request, vs: seq<Visit>): nat
    decreases VisitSize(vs), 1 + |vs|
  {
    if vs == [] then 0 else Unread(req, vs[0]) + UnreadOf(req, vs[1..])
  }

  // ---- what is listed ----------------------------------------------------------------------------------

  lemma {:induction false} OwnFilesAre(req: Request, at: Path, es: seq<Entry>, f: File)
    ensures f in OwnFiles(req, at, es) <==>
              exists e :: && e in es && e.Regular? && req.kindOf(e.name).Some? && e.stat.Some?
                          && f == File(at + [e.name], req.kindOf(e.name).value, e.stat.value.size, e.stat.value.mtime,
                                       e.stat.value.dataless, 0.0)
  {
    if es != [] {
      OwnFilesAre(req, at, es[1..], f);
      assert es == [es[0]] + es[1..];
    }
  }

  lemma {:induction false} SubdirFilesAre(req: Request, at: Path, es: seq<Entry>, f: File)
    ensures f in FilesOf(req, Subdirs(req, at, es)) <==>
              exists e :: && e in es && e.Directory? && req.recursive && req.enters(at + [e.name])
                          && f in Files(req, Visit(at + [e.name], e.dir))
  {
    if es != [] {
      SubdirFilesAre(req, at, es[1..], f);
      assert es == [es[0]] + es[1..];
      var rest := Subdirs(req, at, es[1..]);
      if Enters(req, at, es[0]) {
        FilesOfMore(req, Visit(at + [es[0].name], es[0].dir), rest);
      } else {
        assert Subdirs(req, at, es) == rest;
      }
    }
  }

  /**
   A file is listed for a directory exactly when it is a regular entry of a wanted kind that can be looked up, with
   the size and time of the look-up, or listed for a directory in it that is entered.
   */
  lemma {:induction false} FilesAre(req: Request, at: Path, es: seq<Entry>, f: File)
    ensures f in Files(req, Visit(at, Listed(es))) <==>
              || (exists e :: && e in es && e.Regular? && req.kindOf(e.name).Some? && e.stat.Some?
                              && f == File(at + [e.name], req.kindOf(e.name).value, e.stat.value.size,
                                           e.stat.value.mtime, e.stat.value.dataless, 0.0))
              || (exists e :: && e in es && e.Directory? && req.recursive && req.enters(at + [e.name])
                              && f in Files(req, Visit(at + [e.name], e.dir)))
    ensures f !in Files(req, Visit(at, Unreadable))
  {
    OwnFilesAre(req, at, es, f);
    SubdirFilesAre(req, at, es, f);
  }

  /** Nothing is listed below a directory that is not entered, nor below any without recursion. */
  lemma {:induction false} ListedIsEntered(req: Request, v: Visit, f: File, k: nat)
    requires f in Files(req, v) && |v.path| < k < |f.path|
    ensures req.recursive && req.enters(f.path[..k])
    decreases Size(v.dir)
  {
    FilesAre(req, v.path, v.dir.entries, f);
    if e :| e in v.dir.entries && e.Directory? && req.recursive && req.enters(v.path + [e.name])
            && f in Files(req, Visit(v.path + [e.name], e.dir)) {
      EntryIsSmaller(v.dir.entries, e);
      FilesLieBelow(req, Visit(v.path + [e.name], e.dir), f);
      if k == |v.path| + 1 {
        assert f.path[..k] == v.path + [e.name];
      } else {
        ListedIsEntered(req, Visit(v.path + [e.name], e.dir), f, k);
      }
    }
  }

  lemma {:induction false} FilesLieBelow(req: Request, v: Visit, f: File)
    requires f in Files(req, v)
    ensures v.path < f.path
    decreases Size(v.dir)
  {
    FilesAre(req, v.path, v.dir.entries, f);
    if e :| e in v.dir.entries && e.Directory? && req.recursive && req.enters(v.path + [e.name])
            && f in Files(req, Visit(v.path + [e.name], e.dir)) {
      EntryIsSmaller(v.dir.entries, e);
      FilesLieBelow(req, Visit(v.path + [e.name], e.dir), f);
    }
  }

  lemma {:induction false} EntryIsSmaller(es: seq<Entry>, e: Entry)
    requires e in es && e.Directory?
    ensures Size(e.dir) <= EntrySize(es)
  {
    if e != es[0] {
      EntryIsSmaller(es[1..], e);
    }
  }

  /** Without a limit of its own a request stops at half a million files. */
  lemma {:induction false} LimitIs(req: Request)
    ensures Limit(req) == if req.maxFiles >= 1 then req.maxFiles else 500000
  {
  }

  // ---- the order of the listing ------------------------------------------------------------------------

  /** The path of the `i`-th file of a directory's own. */
  ghost function OwnPath(req: Request, at: Path, es: seq<Entry>, i: nat): Path
    requires i < |OwnFiles(req, at, es)|
  {
    OwnFiles(req, at, es)[i].path
  }

  lemma {:induction false} OwnPathNext(req: Request, at: Path, es: seq<Entry>, i: nat)
    requires i < |OwnFiles(req, at, es)|
    ensures es != []
    ensures OwnFile(req, at, es[0]).None? ==>
              i < |OwnFiles(req, at, es[1..])| && OwnPath(req, at, es, i) == OwnPath(req, at, es[1..], i)
    ensures OwnFile(req, at, es[0]).Some? && i > 0 ==>
              i - 1 < |OwnFiles(req, at, es[1..])| && OwnPath(req, at, es, i) == OwnPath(req, at, es[1..], i - 1)
    ensures OwnFile(req, at, es[0]).Some? && i == 0 ==> OwnPath(req, at, es, i) == at + [es[0].name]
  {
    if OwnFile(req, at, es[0]).None? {
      assert OwnFiles(req, at, es) == OwnFiles(req, at, es[1..]);
    }
  }

  lemma {:induction false} OwnFilesInOrder(req: Request, at: Path, es: seq<Entry>, i: nat, j: nat)
      returns (a: nat, b: nat)
    requires i < j < |OwnFiles(req, at, es)|
    ensures a < b < |es|
    ensures OwnPath(req, at, es, i) == at + [es[a].name] && OwnPath(req, at, es, j) == at + [es[b].name]
  {
    OwnPathNext(req, at, es, i);
    OwnPathNext(req, at, es, j);
    if OwnFile(req, at, es[0]).None? {
      a, b := OwnFilesInOrder(req, at, es[1..], i, j);
      a, b := a + 1, b + 1;
    } else if i > 0 {
      a, b := OwnFilesInOrder(req, at, es[1..], i - 1, j - 1);
      a, b := a + 1, b + 1;
    } else {
      b := OwnFileAt(req, at, es[1..], j - 1);
      a, b := 0, b + 1;
    }
  }

  lemma {:induction false} OwnFileAt(req: Request, at: Path, es: seq<Entry>, j: nat) returns (b: nat)
    requires j < |OwnFiles(req, at, es)|
    ensures b < |es| && OwnPath(req, at, es, j) == at + [es[b].name]
  {
    OwnPathNext(req, at, es, j);
    if OwnFile(req, at, es[0]).None? {
      b := OwnFileAt(req, at, es[1..], j);
      b := b + 1;
    } else if j > 0 {
      b := OwnFileAt(req, at, es[1..], j - 1);
      b := b + 1;
    } else {
      b := 0;
    }
  }

  lemma {:induction false} SubdirFileAt(req: Request, at: Path, es: seq<Entry>, j: nat) returns (b: nat)
    requires j < |FilesOf(req, Subdirs(req, at, es))|
    ensures b < |es| && at + [es[b].name] < FilesOf(req, Subdirs(req, at, es))[j].path
  {
    var rest := Subdirs(req, at, es[1..]);
    if !Enters(req, at, es[0]) {
      assert Subdirs(req, at, es) == rest;
      b := SubdirFileAt(req, at, es[1..], j);
      b := b + 1;
    } else {
      var v := Visit(at + [es[0].name], es[0].dir);
      FilesOfMore(req, v, rest);
      if j < |Files(req, v)| {
        FilesLieBelow(req, v, Files(req, v)[j]);
        b := 0;
      } else {
        b := SubdirFileAt(req, at, es[1..], j - |Files(req, v)|);
        b := b + 1;
      }
    }
  }

  lemma {:induction false} SubdirFilesInOrder(req: Request, at: Path, es: seq<Entry>, i: nat, j: nat)
      returns (a: nat, b: nat)
    requires i < j < |FilesOf(req, Subdirs(req, at, es))|
    ensures a <= b < |es|
    ensures at + [es[a].name] < FilesOf(req, Subdirs(req, at, es))[i].path
    ensures at + [es[b].name] < FilesOf(req, Subdirs(req, at, es))[j].path
  {
    var rest := Subdirs(req, at, es[1..]);
    if !Enters(req, at, es[0]) {
      assert Subdirs(req, at, es) == rest;
      a, b := SubdirFilesInOrder(req, at, es[1..], i, j);
      a, b := a + 1, b + 1;
    } else {
      var v := Visit(at + [es[0].name], es[0].dir);
      var n := |Files(req, v)|;
      FilesOfMore(req, v, rest);
      if i >= n {
        a, b := SubdirFilesInOrder(req, at, es[1..], i - n, j - n);
        a, b := a + 1, b + 1;
      } else {
        FilesLieBelow(req, v, Files(req, v)[i]);
        a := 0;
        b := SubdirFileAt(req, at, es, j);
      }
    }
  }

  /**
   The files of a directory itself come first, in the order of its entries, and then those below it, directory by
   directory in that order.
   */
  lemma {:induction false} FilesInOrder(req: Request, at: Path, es: seq<Entry>, i: nat, j: nat)
      returns (a: nat, b: nat)
    requires i < j < |Files(req, Visit(at, Listed(es)))|
    ensures a < |es| && b < |es|
    ensures var f, g := Files(req, Visit(at, Listed(es)))[i].path, Files(req, Visit(at, Listed(es)))[j].path;
            && at + [es[a].name] <= f && at + [es[b].name] <= g
            && (|f| == |at| + 1 && |g| == |at| + 1 ==> a < b)
            && (|f| > |at| + 1 ==> |g| > |at| + 1 && a <= b)
  {
    var own, below := OwnFiles(req, at, es), FilesOf(req, Subdirs(req, at, es));
    var n := |own|;
    if j < n {
      a, b := OwnFilesInOrder(req, at, es, i, j);
    } else if i >= n {
      a, b := SubdirFilesInOrder(req, at, es, i - n, j - n);
    } else {
      a := OwnFileAt(req, at, es, i);
      b := SubdirFileAt(req, at, es, j - n);
    }
  }

  // ---- no file is listed twice -------------------------------------------------------------------------

  /** No two entries of a directory share a name. */
  ghost predicate WellNamed(d: Dir)
    decreases d
  {
    d.Listed? ==>
      && (forall i, j :: 0 <= i < j < |d.entries| ==> d.entries[i].name != d.entries[j].name)
      && forall e :: e in d.entries && e.Directory? ==> WellNamed(e.dir)
  }

  ghost predicate DistinctPaths(fs: seq<File>) {
    forall i, j :: 0 <= i < j < |fs| ==> fs[i].path != fs[j].path
  }

  lemma {:induction false} DistinctJoins(a: seq<File>, b: seq<File>)
    requires DistinctPaths(a) && DistinctPaths(b)
    requires forall f, g :: f in a && g in b ==> f.path != g.path
    ensures DistinctPaths(a + b)
  {
    var s := a + b;
    forall i, j | 0 <= i < j < |s|
      ensures s[i].path != s[j].path
    {
      if i < |a| <= j {
        assert s[i] in a && s[j] in b;
      }
    }
  }

  /** The path lies in `at`, under the name of one of the entries. */
  ghost predicate Names(at: Path, es: seq<Entry>, p: Path) {
    at < p && exists e :: e in es && e.name == p[|at|]
  }

  lemma {:induction false} OwnFilesAreDistinct(req: Request, at: Path, es: seq<Entry>)
    requires forall i, j :: 0 <= i < j < |es| ==> es[i].name != es[j].name
    ensures DistinctPaths(OwnFiles(req, at, es))
    ensures forall f :: f in OwnFiles(req, at, es) ==> |f.path| == |at| + 1 && Names(at, es, f.path)
  {
    if es != [] {
      OwnFilesAreDistinct(req, at, es[1..]);
      var f := OwnFile(req, at, es[0]);
      assert es == [es[0]] + es[1..];
      DistinctJoins(if f.Some? then [f.value] else [], OwnFiles(req, at, es[1..]));
    }
  }

  lemma {:induction false} SubdirFilesAreDistinct(req: Request, at: Path, es: seq<Entry>)
    requires forall i, j :: 0 <= i < j < |es| ==> es[i].name != es[j].name
    requires forall e :: e in es && e.Directory? ==> WellNamed(e.dir)
    ensures DistinctPaths(FilesOf(req, Subdirs(req, at, es)))
    ensures forall f :: f in FilesOf(req, Subdirs(req, at, es)) ==> |f.path| > |at| + 1 && Names(at, es, f.path)
    decreases EntrySize(es), |es|
  {
    if es != [] {
      SubdirFilesAreDistinct(req, at, es[1..]);
      assert es == [es[0]] + es[1..];
      var rest := Subdirs(req, at, es[1..]);
      if Enters(req, at, es[0]) {
        var v := Visit(at + [es[0].name], es[0].dir);
        assert es[0] in es;
        FilesAreDistinct(req, v);
        FilesOfMore(req, v, rest);
        forall f | f in Files(req, v)
          ensures |f.path| > |at| + 1 && at < f.path && f.path[|at|] == es[0].name
        {
          assert f.path[|at|] == v.path[|at|];
        }
        DistinctJoins(Files(req, v), FilesOf(req, rest));
      } else {
        assert Subdirs(req, at, es) == rest;
      }
    }
  }

  /** No path is listed twice, and every path listed lies below the directory. */
  lemma {:induction false} FilesAreDistinct(req: Request, v: Visit)
    requires WellNamed(v.dir)
    ensures DistinctPaths(Files(req, v))
    ensures forall f :: f in Files(req, v) ==> v.path < f.path
    decreases Size(v.dir), 0
  {
    if v.dir.Listed? {
      OwnFilesAreDistinct(req, v.path, v.dir.entries);
      SubdirFilesAreDistinct(req, v.path, v.dir.entries);
      DistinctJoins(OwnFiles(req, v.path, v.dir.entries), FilesOf(req, Subdirs(req, v.path, v.dir.entries)));
    }
  }

  // ---- the stack ---------------------------------------------------------------------------------------

  /** The stack's visits in the order they come off it. */
  function Pending(stack: seq<Visit>): (vs: seq<Visit>)
    ensures |vs| == |stack|
  {
    if stack == [] then [] else [stack[|stack| - 1]] + Pending(stack[..|stack| - 1])
  }

  lemma {:induction false} PendingPushed(stack: seq<Visit>, v: Visit)
    ensures Pending(stack + [v]) == [v] + Pending(stack)
  {
    assert (stack + [v])[..|stack|] == stack;
  }

  lemma {:induction false} FilesOfMore(req: Request, v: Visit, vs: seq<Visit>)
    ensures FilesOf(req, [v] + vs) == Files(req, v) + FilesOf(req, vs)
    ensures UnreadOf(req, [v] + vs) == Unread(req, v) + UnreadOf(req, vs)
    ensures VisitSize([v] + vs) == Size(v.dir) + VisitSize(vs)
  {
    assert ([v] + vs)[1..] == vs;
  }

  /** Every directory that cannot be read counts once, wherever it stands below directories that are entered. */
  lemma {:induction false} UnreadIs(req: Request, at: Path, e: Entry, es: seq<Entry>)
    ensures Unread(req, Visit(at, Unreadable)) == 1 && Unread(req, Visit(at, Listed([]))) == 0
    ensures Unread(req, Visit(at, Listed([e] + es))) == Unread(req, Visit(at, Listed(es))) +
              if e.Directory? && req.recursive && req.enters(at + [e.name])
              then Unread(req, Visit(at + [e.name], e.dir)) else 0
  {
    var both := [e] + es;
    assert both[0] == e && both[1..] == es;
    if Enters(req, at, e) {
      FilesOfMore(req, Visit(at + [e.name], e.dir), Subdirs(req, at, es));
    } else {
      assert Subdirs(req, at, both) == Subdirs(req, at, es);
    }
  }

  lemma {:induction false} FilesOfBoth(req: Request, a: seq<Visit>, b: seq<Visit>)
    ensures FilesOf(req, a + b) == FilesOf(req, a) + FilesOf(req, b)
    ensures UnreadOf(req, a + b) == UnreadOf(req, a) + UnreadOf(req, b)
    ensures VisitSize(a + b) == VisitSize(a) + VisitSize(b)
  {
    if a == [] {
      assert a + b == b;
      assert [] + FilesOf(req, b) == FilesOf(req, b);
    } else {
      FilesOfBoth(req, a[1..], b);
      assert a + b == [a[0]] + (a[1..] + b);
      FilesOfMore(req, a[0], a[1..] + b);
      Regroup(Files(req, a[0]), FilesOf(req, a[1..]), FilesOf(req, b));
    }
  }

  lemma {:induction false} OwnFilesMore(req: Request, at: Path, es: seq<Entry>, i: nat)
    requires i < |es|
    ensures OwnFiles(req, at, es[..i + 1]) ==
            OwnFiles(req, at, es[..i]) + (if OwnFile(req, at, es[i]).Some? then [OwnFile(req, at, es[i]).value] else [])
    ensures Subdirs(req, at, es[..i + 1]) ==
            Subdirs(req, at, es[..i]) + (if Enters(req, at, es[i]) then [Visit(at + [es[i].name], es[i].dir)] else [])
  {
    assert es[..i + 1] == es[..i] + [es[i]];
    OneEntryMore(req, at, es[..i], es[i]);
  }

  lemma {:induction false} OneEntryMore(req: Request, at: Path, es: seq<Entry>, e: Entry)
    ensures OwnFiles(req, at, es + [e]) ==
            OwnFiles(req, at, es) + (if OwnFile(req, at, e).Some? then [OwnFile(req, at, e).value] else [])
    ensures Subdirs(req, at, es + [e]) ==
            Subdirs(req, at, es) + (if Enters(req, at, e) then [Visit(at + [e.name], e.dir)] else [])
  {
    if es == [] {
      assert es + [e] == [e] && [e][1..] == [];
    } else {
      assert (es + [e])[1..] == es[1..] + [e];
      OneEntryMore(req, at, es[1..], e);
    }
  }

  lemma {:induction false} OwnFilesGrow(req: Request, at: Path, es: seq<Entry>, i: nat)
    requires i <= |es|
    ensures OwnFiles(req, at, es[..i]) <= OwnFiles(req, at, es)
    decreases |es| - i
  {
    if i < |es| {
      OwnFilesMore(req, at, es, i);
      OwnFilesGrow(req, at, es, i + 1);
    } else {
      assert es[..i] == es;
    }
  }

  // ---- the walk ----------------------------------------------------------------------------------------

  /** Push the subdirectories last to first, so that they come off in name order. */
  method PushAll(stack: seq<Visit>, subs: seq<Visit>) returns (r: seq<Visit>)
    ensures Pending(r) == subs + Pending(stack)
  {
    r := stack;
    var i := |subs|;
    ghost var pushed := [];
    while i > 0
      invariant 0 <= i <= |subs| && subs[..i] + pushed == subs
      invariant Pending(r) == pushed + Pending(stack)
    {
      i := i - 1;
      PendingPushed(r, subs[i]);
      Regroup([subs[i]], pushed, Pending(stack));
      pushed := [subs[i]] + pushed;
      r := r + [subs[i]];
    }
  }

  /** Scan one directory's entries, up to the file that reaches the limit. */
  method ScanEntries(req: Request, at: Path, es: seq<Entry>, before: seq<File>)
    returns (files: seq<File>, subs: seq<Visit>, full: bool)
    requires |before| < Limit(req)
    ensures !full ==> files == before + OwnFiles(req, at, es) && subs == Subdirs(req, at, es) && |files| < Limit(req)
    ensures full ==> files <= before + OwnFiles(req, at, es) && |files| == Limit(req)
  {
    files, subs, full := before, [], false;
    var i := 0;
    assert es[..0] == [];
    while i < |es|
      invariant i <= |es|
      invariant files == before + OwnFiles(req, at, es[..i]) && subs == Subdirs(req, at, es[..i])
      invariant |files| < Limit(req)
    {
      var e := es[i];
      OwnFilesMore(req, at, es, i);
      if e.Directory? {
        if Enters(req, at, e) {
          subs := subs + [Visit(at + [e.name], e.dir)];
        }
      } else if e.Regular? {
        var f := OwnFile(req, at, e);
        if f.Some? {
          files := files + [f.value];
          if |files| >= Limit(req) {
            OwnFilesGrow(req, at, es, i + 1);
            full := true;
            return;
          }
        }
      }
      i := i + 1;
    }
    assert es[..i] == es;
  }

  function First<T>(s: seq<T>, n: nat): (r: seq<T>)
    ensures r <= s && |r| <= n && (|r| == n || r == s)
  {
    if |s| <= n then s else s[..n]
  }

  /** Is the run cancelled at the start of this round of the loop? */
  type Cancel = nat -> bool

  /**
   The walk. Uncancelled, it finds the first files of the recursive listing, up to the limit, and says
   `truncated` exactly when the listing reaches the limit. Cancelled, it still returns a beginning of it.
   */
  method WalkScan(req: Request, root: Visit, cancel: Cancel)
    returns (files: seq<File>, unreadable: nat, truncated: bool, stopped: bool)
    ensures (forall round :: !cancel(round)) ==> !stopped
    ensures !stopped ==> files == First(Files(req, root), Limit(req))
    ensures !stopped ==> (truncated <==> |Files(req, root)| >= Limit(req))
    ensures !stopped && !truncated ==> unreadable == Unread(req, root)
    ensures stopped ==> files <= Files(req, root) && |files| < Limit(req) && !truncated
    ensures unreadable <= Unread(req, root)
  {
    var stack := [root];
    files, unreadable, truncated, stopped := [], 0, false, false;
    ghost var pending := [root];
    PendingPushed([], root);
    FilesOfMore(req, root, []);
    var round := 0;
    while |stack| > 0
      invariant pending == Pending(stack)
      invariant files + FilesOf(req, pending) == Files(req, root)
      invariant unreadable + UnreadOf(req, pending) == Unread(req, root)
      invariant |files| < Limit(req) && !truncated && !stopped
      decreases VisitSize(pending)
    {
      if cancel(round) {
        stopped := true;
        return;
      }
      round := round + 1;
      var v := stack[|stack| - 1];
      stack := stack[..|stack| - 1];
      ghost var rest := Pending(stack);
      assert pending == [v] + rest;
      FilesOfMore(req, v, rest);
      match v.dir
      case Unreadable =>
        unreadable := unreadable + 1;
        pending := rest;
      case Listed(es) =>
        ghost var before := files;
        var subs, full;
        files, subs, full := ScanEntries(req, v.path, es, files);
        ghost var inner := Subdirs(req, v.path, es);
        Unfolded(req, v, before, rest);
        if full {
          assert files <= before + OwnFiles(req, v.path, es) <= Files(req, root);
          truncated := true;
          return;
        }
        stack := PushAll(stack, subs);
        FilesOfBoth(req, inner, rest);
        SubdirsAreSmaller(req, v.path, es);
        pending := inner + rest;
    }
  }

  lemma {:induction false} Unfolded(req: Request, v: Visit, before: seq<File>, rest: seq<Visit>)
    requires v.dir.Listed?
    ensures var es := v.dir.entries; var own, inner := OwnFiles(req, v.path, es), Subdirs(req, v.path, es);
            && before + (Files(req, v) + FilesOf(req, rest))
               == (before + own) + (FilesOf(req, inner) + FilesOf(req, rest))
            && Unread(req, v) == UnreadOf(req, inner)
  {
    var es := v.dir.entries;
    var own, inner := OwnFiles(req, v.path, es), FilesOf(req, Subdirs(req, v.path, es));
    Regroup(own, inner, FilesOf(req, rest));
    Regroup(before, own, inner + FilesOf(req, rest));
  }
}
