/** Healing the path keys on disk: a unit manifest's file entries, and the path-keyed blocks of its state files. */
module ManifestHeal {
  import opened Seqs
  import opened PathKeys
  import opened Sorting
  import opened Wrappers

  type Order = (string, string) -> bool

  /** A manifest entry: `pinned` are the strings of its list, `rest` whatever else it says. */
  datatype File<R> = File(path: Option<string>, cid: bool, modified: string, pinned: seq<string>, rest: R)

  /** Lexicographic order of strings by their characters. */
  predicate Later(a: string, b: string) {
    a != [] && (b == [] || a[0] > b[0] || (a[0] == b[0] && Later(a[1..], b[1..])))
  }

  /** Does `a` know strictly more than `b`: a cid first, then the later change. */
  predicate Beats<R>(a: File<R>, b: File<R>) {
    (a.cid && !b.cid) || (a.cid == b.cid && Later(a.modified, b.modified))
  }

  function Uniq(xs: seq<string>): seq<string> {
    if xs == [] then []
    else
      var front, last := Uniq(xs[..|xs| - 1]), xs[|xs| - 1];
      if last in front then front else front + [last]
  }

  function Union(a: seq<string>, b: seq<string>, leq: Order): seq<string> {
    Sorted(Uniq(a + b), leq)
  }

  /** Fold one more entry into the one kept for its path. */
  function Merge<R>(kept: File<R>, raw: File<R>, leq: Order): File<R> {
    var winner := if Beats(raw, kept) then raw.(path := kept.path) else kept;
    winner.(pinned := Union(kept.pinned, raw.pinned, leq))
  }

  predicate HealsTo<R>(f: File<R>, p: string) {
    f.path.Some? && HealWindowsPath(f.path.value) == p
  }

  /** What is kept for path `p`. */
  function Kept<R>(files: seq<File<R>>, p: string, leq: Order): (k: Option<File<R>>)
    ensures k.Some? ==> k.value.path == Some(p)
  {
    if files == [] then None
    else
      var k, raw := Kept(files[..|files| - 1], p, leq), files[|files| - 1];
      if !HealsTo(raw, p) then k
      else if k.None? then Some(raw.(path := Some(p)))
      else Some(Merge(k.value, raw, leq))
  }

  predicate NeedsHealing<R>(files: seq<File<R>>) {
    exists i :: 0 <= i < |files| && files[i].path.Some? && HasWindowsSeparator(files[i].path.value)
  }

  function PathOf<R>(f: File<R>): string {
    if f.path.Some? then f.path.value else ""
  }

  function PathOrder<R>(leq: Order): (File<R>, File<R>) -> bool {
    (a: File<R>, b: File<R>) => leq(PathOf(a), PathOf(b))
  }

  /** The entries kept are those of the paths listed, each path once. */
  ghost predicate Keeps<R>(out: seq<File<R>>, files: seq<File<R>>, leq: Order) {
    && (forall i, j :: 0 <= i < j < |out| ==> out[i].path != out[j].path)
    && (forall f :: f in out ==> f.path.Some? && Kept(files, f.path.value, leq) == Some(f))
    && (forall p :: Kept(files, p, leq).Some? ==> Kept(files, p, leq).value in out)
  }

  function IndexOf<R>(fs: seq<File<R>>, p: string): (i: nat)
    ensures i <= |fs|
    ensures i < |fs| ==> fs[i].path == Some(p)
    ensures forall j :: 0 <= j < i ==> fs[j].path != Some(p)
  {
    if fs == [] || fs[0].path == Some(p) then 0 else 1 + IndexOf(fs[1..], p)
  }

  method HealUnitManifest<R(!new)>(files: seq<File<R>>, computer: bool, leq: Order)
    returns (changed: bool, out: seq<File<R>>)
    ensures changed <==> !computer && exists f :: f in files && f.path.Some? && '\\' in f.path.value
    ensures !changed ==> out == files
    ensures changed ==> Keeps(out, files, leq)
    ensures changed && TotalPreorder(leq) ==>
              forall i, j :: 0 <= i < j < |out| ==>
                out[i].path.Some? && out[j].path.Some? && leq(out[i].path.value, out[j].path.value)
  {
    if computer || !NeedsHealing(files) {
      return false, files;
    }
    var byPath := FoldByPath(files, leq);
    changed, out := true, Sorted(byPath, PathOrder(leq));
    SortedKeeps(byPath, files, leq);
    SortedByPath(byPath, leq);
    forall i, j | TotalPreorder(leq) && 0 <= i < j < |out|
      ensures out[i].path.Some? && out[j].path.Some? && leq(out[i].path.value, out[j].path.value)
    {
      assert out[i] in out && out[j] in out;
      PathsInOrder(out, leq, i, j);
    }
  }

  method TakeIn<R>(byPath: seq<File<R>>, raw: File<R>, leq: Order) returns (out: seq<File<R>>)
    ensures out == Taken(byPath, raw, leq)
  {
    out := byPath;
    if raw.path.Some? {
      var p := HealWindowsPath(raw.path.value);
      var k := IndexOf(out, p);
      if k == |out| {
        out := out + [raw.(path := Some(p))];
      } else {
        var prev := out[k];
        var winner := if (raw.cid && !prev.cid) || (raw.cid == prev.cid && Later(raw.modified, prev.modified))
                      then raw.(path := Some(p)) else prev;
        out := out[k := winner.(pinned := Union(prev.pinned, raw.pinned, leq))];
      }
    }
  }

  method FoldByPath<R(!new)>(files: seq<File<R>>, leq: Order) returns (byPath: seq<File<R>>)
    ensures Keeps(byPath, files, leq)
  {
    byPath := [];
    var i := 0;
    while i < |files|
      invariant i <= |files|
      invariant Keeps(byPath, files[..i], leq)
    {
      var raw := files[i];
      assert files[..i + 1] == files[..i] + [raw];
      KeepsOneMore(byPath, files[..i], raw, leq);
      byPath := TakeIn(byPath, raw, leq);
      i := i + 1;
    }
    assert files[..i] == files;
  }

  lemma {:induction false} PathsInOrder<R>(fs: seq<File<R>>, leq: Order, i: nat, j: nat)
    requires Ordered(fs, PathOrder(leq)) && i < j < |fs|
    requires fs[i].path.Some? && fs[j].path.Some?
    ensures leq(fs[i].path.value, fs[j].path.value)
  {
    var before := PathOrder<R>(leq);
    assert before(fs[i], fs[j]);
    assert leq(PathOf(fs[i]), PathOf(fs[j]));
  }

  lemma {:induction false} SortedByPath<R(!new)>(fs: seq<File<R>>, leq: Order)
    ensures TotalPreorder(leq) ==> Ordered(Sorted(fs, PathOrder(leq)), PathOrder(leq))
  {
    if TotalPreorder(leq) {
      var before := PathOrder<R>(leq);
      forall x: File<R>, y, z | before(x, y) && before(y, z)
        ensures before(x, z)
      {
        assert leq(PathOf(x), PathOf(y)) && leq(PathOf(y), PathOf(z));
      }
      forall x: File<R>, y
        ensures before(x, y) || before(y, x)
      {
        assert leq(PathOf(x), PathOf(y)) || leq(PathOf(y), PathOf(x));
      }
      SortedIsOrdered(fs, before);
    }
  }

  lemma {:induction false} KeptMore<R>(files: seq<File<R>>, raw: File<R>, p: string, leq: Order)
    ensures Kept(files + [raw], p, leq) ==
            if !HealsTo(raw, p) then Kept(files, p, leq)
            else if Kept(files, p, leq).None? then Some(raw.(path := Some(p)))
            else Some(Merge(Kept(files, p, leq).value, raw, leq))
  {
    assert (files + [raw])[..|files|] == files;
  }

  /** The table after one more entry. */
  function Taken<R>(out: seq<File<R>>, raw: File<R>, leq: Order): seq<File<R>> {
    if raw.path.None? then out
    else
      var p := HealWindowsPath(raw.path.value);
      var k := IndexOf(out, p);
      if k == |out| then out + [raw.(path := Some(p))] else out[k := Merge(out[k], raw, leq)]
  }

  lemma {:induction false} KeepsOneMore<R>(out: seq<File<R>>, files: seq<File<R>>, raw: File<R>, leq: Order)
    requires Keeps(out, files, leq)
    ensures Keeps(Taken(out, raw, leq), files + [raw], leq)
  {
    var out' := Taken(out, raw, leq);
    forall p
      ensures Kept(files + [raw], p, leq) ==
              if !HealsTo(raw, p) then Kept(files, p, leq)
              else if Kept(files, p, leq).None? then Some(raw.(path := Some(p)))
              else Some(Merge(Kept(files, p, leq).value, raw, leq))
    {
      KeptMore(files, raw, p, leq);
    }
    if raw.path.Some? {
      var p := HealWindowsPath(raw.path.value);
      var k := IndexOf(out, p);
      assert k == |out| ==> Kept(files, p, leq).None?;
      assert k < |out| ==> out[k] in out;
      assert out'[k] in out';
      forall q | Kept(files + [raw], q, leq).Some?
        ensures Kept(files + [raw], q, leq).value in out'
      {
        if q != p {
          var f := Kept(files, q, leq).value;
          var j :| 0 <= j < |out| && out[j] == f;
          assert out'[j] == f;
        }
      }
    }
  }

  lemma {:induction false} SortedKeeps<R(!new)>(out: seq<File<R>>, files: seq<File<R>>, leq: Order)
    requires Keeps(out, files, leq)
    ensures Keeps(Sorted(out, PathOrder(leq)), files, leq)
  {
    var r := Sorted(out, PathOrder(leq));
    forall f
      ensures f in r <==> f in out
    {
      assert f in multiset(r) <==> f in multiset(out);
    }
    forall i, j | 0 <= i < j < |r|
      ensures r[i].path != r[j].path
    {
      if r[i].path == r[j].path {
        assert r[i] in out && r[j] in out && r[i] == r[j];
        TwiceCounts(r, i, j);
        OnceIn(out, r[i]);
      }
    }
  }

  lemma {:induction false} OnceIn<R>(fs: seq<File<R>>, f: File<R>)
    requires forall i, j :: 0 <= i < j < |fs| ==> fs[i].path != fs[j].path
    ensures multiset(fs)[f] <= 1
  {
    if fs != [] {
      OnceIn(fs[1..], f);
      assert fs == [fs[0]] + fs[1..];
      assert fs[0] !in fs[1..];
    }
  }

  // ---- what is kept ------------------------------------------------------------------------------------

  lemma {:induction false} LaterIsStrict(a: string, b: string, c: string)
    ensures !Later(a, a)
    ensures Later(a, b) && Later(b, c) ==> Later(a, c)
    ensures Later(a, b) || a == b || Later(b, a)
  {
    if a != [] {
      if b != [] {
        LaterIsStrict(a[1..], b[1..], if c == [] then [] else c[1..]);
        assert a == [a[0]] + a[1..] && b == [b[0]] + b[1..];
      } else {
        LaterIsStrict(a[1..], [], []);
      }
    }
  }

  /** A string is later than its beginnings, and otherwise by the first character that differs. */
  lemma {:induction false} LaterIs(a: string, b: string, k: nat)
    requires k <= |a| && k <= |b| && a[..k] == b[..k]
    requires k == |a| || k == |b| || a[k] != b[k]
    ensures Later(a, b) <==> k < |a| && (k == |b| || a[k] > b[k])
  {
    if k > 0 {
      assert a[0] == a[..k][0] == b[..k][0] == b[0];
      assert a[1..][..k - 1] == a[..k][1..] && b[1..][..k - 1] == b[..k][1..];
      LaterIs(a[1..], b[1..], k - 1);
    }
  }

  /** What beats an entry: a cid where it has none, or a later change when both have one or neither has. */
  lemma {:induction false} BeatsIs<R>(a: File<R>, b: File<R>)
    ensures a.cid && !b.cid ==> Beats(a, b) && !Beats(b, a)
    ensures a.cid == b.cid ==> (Beats(a, b) <==> Later(a.modified, b.modified))
  {
  }

  /** Does `a` know as much as `b`? */
  predicate Knows<R>(a: File<R>, b: File<R>) {
    !Beats(b, a)
  }

  lemma {:induction false} KnowingIsTransitive<R>(a: File<R>, b: File<R>, c: File<R>)
    ensures Knows(a, b) && Knows(b, c) ==> Knows(a, c)
    ensures Beats(a, b) && Knows(b, c) ==> Beats(a, c)
    ensures Knows(a, b) && Beats(b, c) ==> Beats(a, c)
    ensures Beats(a, b) ==> Knows(a, b)
    ensures Knows(a, a)
  {
    LaterIsStrict(a.modified, b.modified, a.modified);
    LaterIsStrict(a.modified, b.modified, c.modified);
    LaterIsStrict(c.modified, b.modified, a.modified);
    LaterIsStrict(c.modified, a.modified, b.modified);
  }

  /** The same entry under another path, with another list of pins. */
  ghost predicate SameKnowledge<R>(a: File<R>, b: File<R>) {
    a.cid == b.cid && a.modified == b.modified && a.rest == b.rest
  }

  /** `k` is the entry of place `i` with its path healed: no entry of its path knows more, and none before it as
      much. */
  ghost predicate Survives<R>(files: seq<File<R>>, p: string, k: File<R>, i: nat) {
    && i < |files| && HealsTo(files[i], p) && SameKnowledge(k, files[i])
    && (forall j :: 0 <= j < |files| && HealsTo(files[j], p) ==> Knows(files[i], files[j]))
    && (forall j :: 0 <= j < i && HealsTo(files[j], p) ==> Beats(files[i], files[j]))
  }

  ghost predicate PinnedSomewhere<R>(files: seq<File<R>>, p: string, who: string) {
    exists j :: 0 <= j < |files| && HealsTo(files[j], p) && who in files[j].pinned
  }

  lemma {:induction false} UniqKeeps(xs: seq<string>)
    ensures forall x :: x in Uniq(xs) <==> x in xs
    ensures forall i, j :: 0 <= i < j < |Uniq(xs)| ==> Uniq(xs)[i] != Uniq(xs)[j]
    decreases |xs|
  {
    if xs != [] {
      UniqKeeps(xs[..|xs| - 1]);
      assert forall x :: x in xs <==> x in xs[..|xs| - 1] || x == xs[|xs| - 1];
    }
  }

  lemma {:induction false} UnionIs(a: seq<string>, b: seq<string>, leq: Order, x: string)
    ensures x in Union(a, b, leq) <==> x in a || x in b
  {
    UniqKeeps(a + b);
    var u, r := Uniq(a + b), Union(a, b, leq);
    assert x in r <==> x in multiset(r);
    assert x in u <==> x in multiset(u);
  }

  /** The first entry of a path is all there is to keep. */
  lemma {:induction false} FirstSurvives<R>(front: seq<File<R>>, raw: File<R>, p: string, who: string)
    requires HealsTo(raw, p) && forall f :: f in front ==> !HealsTo(f, p)
    ensures Survives(front + [raw], p, raw.(path := Some(p)), |front|)
    ensures who in raw.pinned <==> PinnedSomewhere(front + [raw], p, who)
  {
    var files := front + [raw];
    forall j | 0 <= j < |front|
      ensures !HealsTo(files[j], p)
    {
      assert files[j] in front;
    }
    KnowingIsTransitive(raw, raw, raw);
    assert files[|front|] == raw;
  }

  /**
   What is kept for a path is the lexicographic maximum of its entries by cid and change, the earliest on ties,
   pinned by everyone who pins any of them.
   */
  lemma {:induction false} KeptIsMaximum<R(!new)>(files: seq<File<R>>, p: string, leq: Order, who: string)
    ensures Kept(files, p, leq).Some? <==> exists f :: f in files && HealsTo(f, p)
    ensures Kept(files, p, leq).Some? ==>
              var k := Kept(files, p, leq).value;
              && (exists i: nat :: Survives(files, p, k, i))
              && (who in k.pinned <==> PinnedSomewhere(files, p, who))
    decreases |files|
  {
    if files != [] {
      var front, raw := files[..|files| - 1], files[|files| - 1];
      KeptIsMaximum(front, p, leq, who);
      assert forall f :: f in files <==> f in front || f == raw;
      if HealsTo(raw, p) {
        if Kept(front, p, leq).None? {
          FirstSurvives(front, raw, p, who);
          assert files == front + [raw];
          assert Survives(files, p, Kept(files, p, leq).value, |front|);
        } else {
          var i: nat :| Survives(front, p, Kept(front, p, leq).value, i);
          MergeSurvives(files, p, leq, i);
          UnionIs(Kept(front, p, leq).value.pinned, raw.pinned, leq, who);
          PinnedMore(files, p, who);
        }
      } else if Kept(front, p, leq).Some? {
        var k := Kept(front, p, leq).value;
        var i: nat :| Survives(front, p, k, i);
        assert Survives(files, p, k, i);
        PinnedMore(files, p, who);
      }
    }
  }

  lemma {:induction false} PinnedMore<R>(files: seq<File<R>>, p: string, who: string)
    requires files != []
    ensures PinnedSomewhere(files, p, who) <==>
            PinnedSomewhere(files[..|files| - 1], p, who)
              || (HealsTo(files[|files| - 1], p) && who in files[|files| - 1].pinned)
  {
    var front := files[..|files| - 1];
    if j :| 0 <= j < |front| && HealsTo(front[j], p) && who in front[j].pinned {
      assert files[j] == front[j];
    }
    if j :| 0 <= j < |files| && HealsTo(files[j], p) && who in files[j].pinned {
      assert j < |front| ==> front[j] == files[j];
    }
  }

  lemma {:induction false} MergeSurvives<R(!new)>(files: seq<File<R>>, p: string, leq: Order, i: nat)
    requires files != [] && HealsTo(files[|files| - 1], p)
    requires Kept(files[..|files| - 1], p, leq).Some?
    requires Survives(files[..|files| - 1], p, Kept(files[..|files| - 1], p, leq).value, i)
    ensures exists at: nat :: Survives(files, p, Kept(files, p, leq).value, at)
  {
    var front, raw := files[..|files| - 1], files[|files| - 1];
    var k := Kept(front, p, leq).value;
    var at: nat := if Beats(raw, k) then |front| else i;
    forall j | 0 <= j < |files| && HealsTo(files[j], p)
      ensures Knows(files[at], files[j]) && (j < at ==> Beats(files[at], files[j]))
    {
      if j < |front| {
        assert front[j] == files[j];
        KnowingIsTransitive(raw, files[i], files[j]);
        KnowingIsTransitive(raw, files[j], raw);
      } else {
        KnowingIsTransitive(raw, raw, raw);
      }
    }
    assert Survives(files, p, Kept(files, p, leq).value, at);
  }

  /** A healed manifest needs no healing: a second run changes nothing. */
  lemma {:induction false} HealedManifestStays<R>(out: seq<File<R>>, files: seq<File<R>>, leq: Order)
    requires Keeps(out, files, leq)
    ensures !NeedsHealing(out)
  {
    forall i | 0 <= i < |out|
      ensures out[i].path.Some? && !HasWindowsSeparator(out[i].path.value)
    {
      assert out[i] in out;
      KeptIsHealed(files, out[i].path.value, leq);
    }
  }

  lemma {:induction false} KeptIsHealed<R>(files: seq<File<R>>, p: string, leq: Order)
    requires Kept(files, p, leq).Some?
    ensures !HasWindowsSeparator(p)
    decreases |files|
  {
    if !HealsTo(files[|files| - 1], p) {
      KeptIsHealed(files[..|files| - 1], p, leq);
    }
  }

  // ---- a block of rows ---------------------------------------------------------------------------------

  datatype Row<R> = Row(path: Option<string>, rest: R)

  predicate RowHealsTo<R>(r: Row<R>, p: string) {
    r.path.Some? && HealWindowsPath(r.path.value) == p
  }

  /** The row kept for `p`: the last one spelled right, or else the first. */
  function KeptRow<R>(rows: seq<Row<R>>, p: string): (k: Option<Row<R>>)
    ensures k.Some? ==> k.value.path == Some(p)
  {
    if rows == [] then None
    else
      var k, r := KeptRow(rows[..|rows| - 1], p), rows[|rows| - 1];
      if !RowHealsTo(r, p) then k
      else if k.None? || !HasWindowsSeparator(r.path.value) then Some(r.(path := Some(p)))
      else k
  }

  ghost predicate KeepsRows<R>(out: seq<Row<R>>, rows: seq<Row<R>>) {
    && (forall i, j :: 0 <= i < j < |out| ==> out[i].path != out[j].path)
    && (forall r :: r in out ==> r.path.Some? && KeptRow(rows, r.path.value) == Some(r))
    && (forall p :: KeptRow(rows, p).Some? ==> KeptRow(rows, p).value in out)
  }

  function RowAt<R>(rs: seq<Row<R>>, p: string): (i: nat)
    ensures i <= |rs|
    ensures i < |rs| ==> rs[i].path == Some(p)
    ensures forall j :: 0 <= j < i ==> rs[j].path != Some(p)
  {
    if rs == [] || rs[0].path == Some(p) then 0 else 1 + RowAt(rs[1..], p)
  }

  predicate RowsNeedHealing<R>(rows: seq<Row<R>>) {
    exists i :: 0 <= i < |rows| && rows[i].path.Some? && HasWindowsSeparator(rows[i].path.value)
  }

  function RowTaken<R>(out: seq<Row<R>>, r: Row<R>): seq<Row<R>> {
    if r.path.None? then out
    else
      var p := HealWindowsPath(r.path.value);
      var k := RowAt(out, p);
      if k == |out| then out + [r.(path := Some(p))]
      else if !HasWindowsSeparator(r.path.value) then out[k := r.(path := Some(p))]
      else out
  }

  lemma {:induction false} KeepsOneRowMore<R>(out: seq<Row<R>>, rows: seq<Row<R>>, r: Row<R>)
    requires KeepsRows(out, rows)
    ensures KeepsRows(RowTaken(out, r), rows + [r])
  {
    var out' := RowTaken(out, r);
    assert (rows + [r])[..|rows|] == rows;
    if r.path.Some? {
      var p := HealWindowsPath(r.path.value);
      var k := RowAt(out, p);
      assert k == |out| ==> KeptRow(rows, p).None?;
      assert k < |out| ==> out[k] in out;
      assert out'[k] in out';
      forall q | KeptRow(rows + [r], q).Some?
        ensures KeptRow(rows + [r], q).value in out'
      {
        if q != p {
          var x := KeptRow(rows, q).value;
          var j :| 0 <= j < |out| && out[j] == x;
          assert out'[j] == x;
        }
      }
    }
  }

  /** The healed paths in the order of the rows. */
  function HealedPaths<R>(rows: seq<Row<R>>): seq<string> {
    if rows == [] then []
    else
      var front, r := HealedPaths(rows[..|rows| - 1]), rows[|rows| - 1];
      if r.path.Some? then front + [HealWindowsPath(r.path.value)] else front
  }

  /** The rows stand in the order of these paths, one row a path. */
  ghost predicate InOrder<R>(out: seq<Row<R>>, paths: seq<string>) {
    |out| == |paths| && forall k :: 0 <= k < |out| ==> out[k].path == Some(paths[k])
  }

  lemma {:induction false} InOrderOneMore<R>(out: seq<Row<R>>, rows: seq<Row<R>>, r: Row<R>)
    requires InOrder(out, Uniq(HealedPaths(rows)))
    ensures InOrder(RowTaken(out, r), Uniq(HealedPaths(rows + [r])))
  {
    assert (rows + [r])[..|rows|] == rows;
    if r.path.Some? {
      var paths, p := HealedPaths(rows), HealWindowsPath(r.path.value);
      assert (paths + [p])[..|paths|] == paths;
      var k := RowAt(out, p);
      if k < |out| {
        assert Uniq(paths)[k] == p;
      } else {
        forall j | 0 <= j < |out|
          ensures Uniq(paths)[j] != p
        {
          assert out[j].path == Some(Uniq(paths)[j]);
        }
      }
    }
  }

  method TakeRow<R(!new)>(out: seq<Row<R>>, r: Row<R>) returns (out': seq<Row<R>>)
    ensures out' == RowTaken(out, r)
  {
    out' := out;
    if r.path.Some? {
      var p := HealWindowsPath(r.path.value);
      var k := RowAt(out, p);
      if k == |out| {
        out' := out' + [r.(path := Some(p))];
      } else if !HasWindowsSeparator(r.path.value) {
        out' := out'[k := r.(path := Some(p))];
      }
    }
  }

  /** The rows kept stand in the order in which their paths first appear. */
  method HealRows<R(!new)>(rows: seq<Row<R>>) returns (changed: bool, out: seq<Row<R>>)
    ensures changed <==> exists r :: r in rows && r.path.Some? && '\\' in r.path.value
    ensures !changed ==> out == rows
    ensures changed ==> KeepsRows(out, rows) && InOrder(out, Uniq(HealedPaths(rows)))
  {
    if !RowsNeedHealing(rows) {
      return false, rows;
    }
    changed, out := true, [];
    var i := 0;
    while i < |rows|
      invariant i <= |rows|
      invariant KeepsRows(out, rows[..i]) && InOrder(out, Uniq(HealedPaths(rows[..i])))
    {
      var r := rows[i];
      assert rows[..i + 1] == rows[..i] + [r];
      KeepsOneRowMore(out, rows[..i], r);
      InOrderOneMore(out, rows[..i], r);
      out := TakeRow(out, r);
      i := i + 1;
    }
    assert rows[..i] == rows;
  }

  /** The row kept is one of the path's rows: if any is spelled right, the last such; otherwise the first of all. */
  lemma {:induction false} RightSpellingWins<R>(rows: seq<Row<R>>, p: string, i: nat)
    requires i < |rows| && RowHealsTo(rows[i], p)
    requires if HasWindowsSeparator(rows[i].path.value)
             then (forall j :: 0 <= j < |rows| && RowHealsTo(rows[j], p) ==> HasWindowsSeparator(rows[j].path.value))
                  && (forall j :: 0 <= j < i ==> !RowHealsTo(rows[j], p))
             else forall j :: i < j < |rows| && RowHealsTo(rows[j], p) ==> HasWindowsSeparator(rows[j].path.value)
    ensures KeptRow(rows, p) == Some(rows[i].(path := Some(p)))
    decreases |rows|
  {
    var front := rows[..|rows| - 1];
    if i < |rows| - 1 {
      RightSpellingWins(front, p, i);
    } else if HasWindowsSeparator(rows[i].path.value) {
      NoRowKept(front, p);
    }
  }

  lemma {:induction false} NoRowKept<R>(rows: seq<Row<R>>, p: string)
    requires forall j :: 0 <= j < |rows| ==> !RowHealsTo(rows[j], p)
    ensures KeptRow(rows, p).None?
    decreases |rows|
  {
    if rows != [] {
      NoRowKept(rows[..|rows| - 1], p);
    }
  }
}
