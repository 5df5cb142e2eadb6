/** Reading the printed tree back gives each of its deepest files once. */
module TreeReading {
  import opened Seqs
  import opened Sorting
  import opened Trie
  import opened TreeLines
  import opened Wrappers

  /** The deepest paths of a tree, in the order their entries are printed. */
  function Listing(vs: seq<View>, base: Parts): seq<Parts>
    decreases vs
  {
    if vs == [] then [] else ListedUnder(vs[0], base) + Listing(vs[1..], base)
  }

  function ListedUnder(v: View, base: Parts): seq<Parts>
    decreases v
  {
    if v.below == [] then [base + v.names] else Listing(v.below, base + v.names)
  }

  // ---------------------------------------------------------------- tokens give the listing

  lemma {:induction false} DeeperIsForgotten(ts: seq<Token>, a: seq<Parts>, b: seq<Parts>, d: nat)
    requires d <= |a| && d <= |b| && a[..d] == b[..d]
    requires ts == [] || ts[0].depth <= d
    ensures Leaves(ts, a) == Leaves(ts, b)
  {
    if ts != [] {
      var k := ts[0].depth;
      assert a[..k] == a[..d][..k] == b[..d][..k] == b[..k];
      assert k > 0 ==> a[k - 1] == a[..d][k - 1] == b[..d][k - 1] == b[k - 1];
    }
  }

  function Extended(above: seq<Parts>, tok: Token): seq<Parts>
    requires tok.depth <= |above|
  {
    above[..tok.depth] + [Base(above, tok.depth) + tok.names]
  }

  /** One token: a path if what follows is no deeper. */
  lemma {:induction false} LeavesStep(tok: Token, more: seq<Token>, above: seq<Parts>)
    requires tok.depth <= |above|
    ensures Leaves([tok] + more, above)
         == (if more == [] || more[0].depth <= tok.depth then [Base(above, tok.depth) + tok.names] else [])
            + Leaves(more, Extended(above, tok))
  {
    var ts := [tok] + more;
    assert ts[0] == tok && ts[1..] == more;
    assert more != [] ==> ts[1] == more[0];
  }

  lemma {:induction false} StartsNoDeeper(vs: seq<View>, d: nat, rest: seq<Token>)
    requires rest == [] || rest[0].depth <= d
    ensures var ts := Tokens(vs, d) + rest; ts == [] || ts[0].depth <= d
  {
  }

  lemma {:induction false} LeavesAreListed(vs: seq<View>, d: nat, rest: seq<Token>, above: seq<Parts>)
    requires d <= |above| && (rest == [] || rest[0].depth <= d)
    ensures Leaves(Tokens(vs, d) + rest, above) == Listing(vs, Base(above, d)) + Leaves(rest, above)
    decreases vs, 1
  {
    if vs == [] {
      assert Tokens(vs, d) + rest == rest;
    } else {
      var first, after := TokensUnder(vs[0], d), Tokens(vs[1..], d);
      StartsNoDeeper(vs[1..], d, rest);
      LeavesUnder(vs[0], d, after + rest, above);
      LeavesAreListed(vs[1..], d, rest, above);
      Regroup(first, after, rest);
      Regroup(ListedUnder(vs[0], Base(above, d)), Listing(vs[1..], Base(above, d)), Leaves(rest, above));
    }
  }

  function TokensUnder(v: View, d: nat): seq<Token> {
    [Token(d, v.names)] + Tokens(v.below, d + 1)
  }

  lemma {:induction false} LeavesUnder(v: View, d: nat, rest: seq<Token>, above: seq<Parts>)
    requires d <= |above| && (rest == [] || rest[0].depth <= d)
    ensures Leaves(TokensUnder(v, d) + rest, above) == ListedUnder(v, Base(above, d)) + Leaves(rest, above)
    decreases v, 0
  {
    var tok, below := Token(d, v.names), Tokens(v.below, d + 1);
    var above' := Extended(above, tok);
    assert TokensUnder(v, d) + rest == [tok] + (below + rest);
    LeavesStep(tok, below + rest, above);
    DeeperIsForgotten(rest, above', above, d);
    if v.below == [] {
      assert below + rest == rest;
    } else {
      assert (below + rest)[0] == below[0] == Token(d + 1, v.below[0].names);
      LeavesAreListed(v.below, d + 1, rest, above');
    }
  }

  // ---------------------------------------------------------------- the listing is the deepest paths

  ghost predicate Ends(t: Node, p: Parts)
    decreases |p|
  {
    if p == [] then t.children == []
    else
      var i := Find(t.children, p[0]);
      i < |t.children| && Ends(t.children[i].node, p[1..])
  }

  /** What is left of a path after the given start. */
  function Strip(start: Parts, p: Parts): (r: Option<Parts>)
    ensures r.Some? ==> p == start + r.value
  {
    if start == [] then Some(p)
    else if p == [] || p[0] != start[0] then None
    else Strip(start[1..], p[1..])
  }

  lemma {:induction false} StripJoined(start: Parts, q: Parts)
    ensures Strip(start, start + q) == Some(q)
  {
    if start == [] {
      assert start + q == q;
    } else {
      assert (start + q)[1..] == start[1..] + q;
      StripJoined(start[1..], q);
    }
  }

  lemma {:induction false} StripTwice(a: Parts, b: Parts, p: Parts)
    ensures Strip(a + b, p) == match Strip(a, p) case None => None case Some(q) => Strip(b, q)
  {
    if a == [] {
      assert a + b == b;
    } else if p != [] && p[0] == a[0] {
      assert (a + b)[1..] == a[1..] + b;
      StripTwice(a[1..], b, p[1..]);
    }
  }

  ghost predicate EndsAt(t: Node, r: Option<Parts>) {
    r.Some? && Ends(t, r.value)
  }

  /** The names a chain adds, and where it ends. */
  function ChainNames(t: Node): Parts {
    if !t.isFile && |t.children| == 1 then [t.children[0].name] + ChainNames(t.children[0].node) else []
  }

  function ChainEnd(t: Node): Node {
    if !t.isFile && |t.children| == 1 then ChainEnd(t.children[0].node) else t
  }

  lemma {:induction false} CollapsedIsChain(names: Parts, t: Node)
    ensures Collapsed(names, t) == Entry(names + ChainNames(t), ChainEnd(t))
    decreases t
  {
    if !t.isFile && |t.children| == 1 {
      var c := t.children[0];
      CollapsedIsChain(names + [c.name], c.node);
      assert names + [c.name] + ChainNames(c.node) == names + ChainNames(t);
    } else {
      assert names + [] == names;
    }
  }

  lemma {:induction false} EndsThroughChain(t: Node, q: Parts)
    ensures Ends(t, q) <==> EndsAt(ChainEnd(t), Strip(ChainNames(t), q))
    decreases t
  {
    if !t.isFile && |t.children| == 1 {
      var c := t.children[0];
      var names := ChainNames(c.node);
      assert ChainNames(t)[1..] == names;
      if q != [] {
        EndsThroughChain(c.node, q[1..]);
      }
    }
  }

  /** `p` runs through this child, or through this entry, to the end of a branch. */
  ghost predicate Below(c: Child, base: Parts, p: Parts) {
    EndsAt(c.node, Strip(base + [c.name], p))
  }

  ghost predicate Through(e: Entry, base: Parts, p: Parts) {
    EndsAt(e.node, Strip(base + e.names, p))
  }

  ghost predicate ThroughSome(es: seq<Entry>, base: Parts, p: Parts) {
    exists e :: e in es && Through(e, base, p)
  }

  lemma {:induction false} BelowByChain(c: Child, e: Entry, base: Parts, p: Parts)
    requires e == Collapsed([c.name], c.node)
    ensures Below(c, base, p) <==> Through(e, base, p)
  {
    CollapsedIsChain([c.name], c.node);
    var start, rest := base + [c.name], ChainNames(c.node);
    assert base + e.names == start + rest;
    StripTwice(start, rest, p);
    if Strip(start, p).Some? {
      EndsThroughChain(c.node, Strip(start, p).value);
    }
  }

  lemma {:induction false} BelowOrNot(t: Node, c: Child, base: Parts, p: Parts)
    requires Proper(t) && c in t.children
    ensures Below(c, base, p) <==>
            EndsAt(t, Strip(base, p)) && Strip(base, p).value != [] && Strip(base, p).value[0] == c.name
  {
    StripTwice(base, [c.name], p);
    if Strip(base, p).Some? {
      var q := Strip(base, p).value;
      var k :| 0 <= k < |t.children| && t.children[k] == c;
      FindIs(t.children, k);
      assert [c.name][1..] == [];
    }
  }

  /** Running through some entry of a directory is ending inside it. */
  lemma {:induction false} ThroughSomeEntry(t: Node, base: Parts, leq: Order, p: Parts)
    requires Proper(t) && t.children != []
    ensures ThroughSome(Entries(t, leq), base, p) <==> EndsAt(t, Strip(base, p))
  {
    var es := Entries(t, leq);
    forall i | 0 <= i < |es| && Through(es[i], base, p)
      ensures EndsAt(t, Strip(base, p))
    {
      var c := EntryChild(t, leq, i);
      BelowByChain(c, es[i], base, p);
      BelowOrNot(t, c, base, p);
    }
    if EndsAt(t, Strip(base, p)) {
      var q := Strip(base, p).value;
      var c := t.children[Find(t.children, q[0])];
      BelowOrNot(t, c, base, p);
      var i := ChildEntry(t, leq, c);
      BelowByChain(c, es[i], base, p);
      assert es[i] in es;
    }
  }

  /** What entries list: the ends of each entry's branches. */
  lemma {:induction false} ListingIs(es: seq<Entry>, base: Parts, leq: Order, p: Parts)
    requires forall e :: e in es ==> ProperEntry(e)
    ensures p in Listing(Views(es, leq), base) <==> ThroughSome(es, base, p)
    decreases EntryWeight(es), |es|, 1
  {
    if es != [] {
      assert es == [es[0]] + es[1..] && Views(es, leq)[1..] == Views(es[1..], leq);
      ListingIs(es[1..], base, leq, p);
      assert es[0] in es;
      ListedUnderIs(es[0], base, leq, p);
    }
  }

  lemma {:induction false} ListedUnderIs(e: Entry, base: Parts, leq: Order, p: Parts)
    requires ProperEntry(e)
    ensures p in ListedUnder(View(e.names, ViewsOf(e.node, leq)), base) <==> Through(e, base, p)
    decreases Weight(e.node), 0, 0
  {
    var here := base + e.names;
    if e.node.children == [] {
      StripJoined(here, []);
      assert here + [] == here;
    } else {
      EntriesAreProper(e.node, leq);
      ListingIs(Entries(e.node, leq), here, leq, p);
      ThroughSomeEntry(e.node, here, leq, p);
    }
  }

  // ---------------------------------------------------------------- deepest paths are the maximal files

  /** A file no other file lies below. */
  ghost predicate Deepest(t: Node, p: Parts) {
    Holds(t, p) && forall more: Parts :: more != [] ==> !Holds(t, p + more)
  }

  lemma {:induction false} EndsIsDeepest(t: Node, p: Parts)
    requires Proper(t) && (t.isFile || t.children != [])
    ensures Ends(t, p) <==> Deepest(t, p)
    decreases |p|
  {
    if p == [] {
      if t.children != [] {
        var c := t.children[0];
        assert c in t.children;
        BranchesEndInFiles(c.node);
        var q := [c.name] + SomePath(c.node);
        assert q[1..] == SomePath(c.node) && Find(t.children, c.name) == 0;
        assert p + q == q && Holds(t, p + q);
      }
    } else {
      var i := Find(t.children, p[0]);
      if i < |t.children| {
        var c := t.children[i];
        assert c in t.children;
        EndsIsDeepest(c.node, p[1..]);
        DeepestBelow(t, i, p);
      }
    }
  }

  lemma {:induction false} DeepestBelow(t: Node, i: nat, p: Parts)
    requires p != [] && i < |t.children| && i == Find(t.children, p[0])
    ensures Deepest(t, p) <==> Deepest(t.children[i].node, p[1..])
  {
    forall more: Parts
      ensures Holds(t, p + more) <==> Holds(t.children[i].node, p[1..] + more)
    {
      assert (p + more)[1..] == p[1..] + more;
    }
  }

  // ---------------------------------------------------------------- each path is listed once

  ghost predicate Once<T>(s: seq<T>) {
    forall i, j :: 0 <= i < j < |s| ==> s[i] != s[j]
  }

  lemma {:induction false} OnceJoins<T>(a: seq<T>, b: seq<T>)
    requires Once(a) && Once(b) && forall x :: x in a ==> x !in b
    ensures Once(a + b)
  {
    var s := a + b;
    forall i, j | 0 <= i < j < |s|
      ensures s[i] != s[j]
    {
      if i < |a| <= j {
        assert s[i] in a && s[j] in b;
      }
    }
  }

  function FirstName(e: Entry): string {
    if e.names == [] then "" else e.names[0]
  }

  /** Entries with different first names. */
  ghost predicate FirstNamesApart(es: seq<Entry>) {
    && (forall e :: e in es ==> ProperEntry(e))
    && forall i, j :: 0 <= i < j < |es| ==> FirstName(es[i]) != FirstName(es[j])
  }

  lemma {:induction false} DistinctCounts(cs: seq<Child>, c: Child)
    requires Distinct(cs)
    ensures multiset(cs)[c] <= 1
  {
    if cs != [] {
      DistinctCounts(cs[1..], c);
      assert cs == [cs[0]] + cs[1..];
      assert cs[0] !in cs[1..];
    }
  }

  lemma {:induction false} EntriesDiffer(t: Node, leq: Order)
    requires Proper(t)
    ensures FirstNamesApart(Entries(t, leq))
  {
    EntriesAreProper(t, leq);
    var es := Entries(t, leq);
    forall i, j | 0 <= i < j < |es|
      ensures FirstName(es[i]) != FirstName(es[j])
    {
      FirstNamesDiffer(t, leq, i, j);
    }
  }

  lemma {:induction false} FirstNamesDiffer(t: Node, leq: Order, i: nat, j: nat)
    requires Proper(t) && i < j < |Entries(t, leq)|
    ensures FirstName(Entries(t, leq)[i]) != FirstName(Entries(t, leq)[j])
  {
    var c := EntryChild(t, leq, i);
    var c' := EntryChild(t, leq, j);
    CollapsedIsProper([c.name], c.node);
    CollapsedIsProper([c'.name], c'.node);
    if c.name == c'.name {
      SameNameIsSame(t.children, c, c');
      NotTwice(t, leq, i, j);
    }
  }

  lemma {:induction false} NotTwice(t: Node, leq: Order, i: nat, j: nat)
    requires Distinct(t.children) && i < j < |Sorted(t.children, ByName(leq))|
    ensures Sorted(t.children, ByName(leq))[i] != Sorted(t.children, ByName(leq))[j]
  {
    var r := Sorted(t.children, ByName(leq));
    if r[i] == r[j] {
      TwiceCounts(r, i, j);
      DistinctCounts(t.children, r[i]);
    }
  }

  lemma {:induction false} SameNameIsSame(cs: seq<Child>, c: Child, c': Child)
    requires Distinct(cs) && c in cs && c' in cs && c.name == c'.name
    ensures c == c'
  {
  }

  lemma {:induction false} ListedOnce(es: seq<Entry>, base: Parts, leq: Order)
    requires FirstNamesApart(es)
    ensures Once(Listing(Views(es, leq), base))
    decreases EntryWeight(es), |es|
  {
    if es != [] {
      var e := es[0];
      assert e in es;
      var v := View(e.names, ViewsOf(e.node, leq));
      assert Views(es, leq)[1..] == Views(es[1..], leq);
      EntriesDiffer(e.node, leq);
      ListedOnce(Entries(e.node, leq), base + e.names, leq);
      ListedOnce(es[1..], base, leq);
      forall p | p in ListedUnder(v, base)
        ensures p !in Listing(Views(es[1..], leq), base)
      {
        ListedUnderIs(e, base, leq, p);
        NotListedAgain(es, base, leq, p);
      }
      OnceJoins(ListedUnder(v, base), Listing(Views(es[1..], leq), base));
    }
  }

  lemma {:induction false} FirstNameIsNext(base: Parts, e: Entry, p: Parts)
    requires ProperEntry(e) && Through(e, base, p)
    ensures |base| < |p| && p[|base|] == FirstName(e)
  {
    var start := base + e.names;
    assert p == start + Strip(start, p).value;
    assert start[|base|] == e.names[0];
  }

  lemma {:induction false} NotListedAgain(es: seq<Entry>, base: Parts, leq: Order, p: Parts)
    requires es != [] && FirstNamesApart(es) && Through(es[0], base, p)
    ensures p !in Listing(Views(es[1..], leq), base)
  {
    assert forall e :: e in es[1..] ==> e in es;
    ListingIs(es[1..], base, leq, p);
    forall i | 1 <= i < |es|
      ensures !Through(es[i], base, p)
    {
      assert es[0] in es && es[i] in es;
      FirstNameIsNext(base, es[0], p);
      if Through(es[i], base, p) {
        FirstNameIsNext(base, es[i], p);
      }
    }
  }

  /** Decoding a printed tree: its deepest files, each once. */
  lemma {:induction false} ReadingIsDeepest(t: Node, leq: Order)
    requires Proper(t)
    ensures Once(Leaves(Tokens(ViewsOf(t, leq), 0), []))
    ensures forall p :: p in Leaves(Tokens(ViewsOf(t, leq), 0), []) <==> t.children != [] && Deepest(t, p)
  {
    var vs := ViewsOf(t, leq);
    LeavesAreListed(vs, 0, [], []);
    assert Tokens(vs, 0) + [] == Tokens(vs, 0);
    var paths := Leaves(Tokens(vs, 0), []);
    assert paths == Listing(vs, []);
    EntriesDiffer(t, leq);
    ListedOnce(Entries(t, leq), [], leq);
    if t.children != [] {
      forall p
        ensures p in paths <==> Deepest(t, p)
      {
        ListingIs(Entries(t, leq), [], leq, p);
        ThroughSomeEntry(t, [], leq, p);
        EndsIsDeepest(t, p);
      }
    }
  }
}
