/** The `--tree` printer itself: a mutable tree of nodes, filled path by path and printed line by line. */
module TreePrinter {
  import opened Seqs
  import opened Segments
  import opened Sorting
  import opened Trie
  import opened TreeLines
  import opened TreeReading
  import opened TreeRoot

  function WithEntry(t: Node, name: string): Node {
    if Find(t.children, name) < |t.children| then t else t.(children := t.children + [Child(name, BARE)])
  }

  /** What becomes of the node of `p[0]`: a file if no part follows, else the rest goes below it. */
  function Arrived(t: Node, p: Parts): Node
    requires p != []
  {
    if |p| == 1 then t.(isFile := true) else Trie.Insert(t, p[1..])
  }

  /** Inserting a path is giving its first part an entry, then going on there. */
  lemma {:induction false} InsertByEntry(t: Node, p: Parts)
    requires p != []
    ensures var i, cs := Find(t.children, p[0]), WithEntry(t, p[0]).children;
            && i < |cs|
            && Trie.Insert(t, p) == t.(children := cs[i := Child(p[0], Arrived(cs[i].node, p))])
  {
    var i := Find(t.children, p[0]);
    if i == |t.children| {
      var next := Arrived(BARE, p);
      assert (t.children + [Child(p[0], BARE)])[i := Child(p[0], next)] == t.children + [Child(p[0], next)];
    }
  }

  /** A JavaScript Map keeps insertion order: `names[i]` leads to `kids[i]`. */
  class TrieNode {
    var isFile: bool
    var names: seq<string>
    var kids: seq<TrieNode>
    ghost var repr: set<TrieNode>
    ghost var value: Node

    ghost predicate Valid()
      reads this, repr
      decreases repr
    {
      && this in repr
      && |names| == |kids| == |value.children|
      && value.isFile == isFile
      && (forall k :: 0 <= k < |kids| ==>
            && kids[k] in repr && kids[k].repr <= repr && this !in kids[k].repr && kids[k].Valid()
            && value.children[k] == Child(names[k], kids[k].value))
      && (forall j, k :: 0 <= j < k < |kids| ==> kids[j].repr !! kids[k].repr)
    }

    constructor ()
      ensures Valid() && fresh(repr) && repr == {this} && value == BARE
    {
      isFile, names, kids := false, [], [];
      repr, value := {this}, BARE;
    }

    method Get(name: string) returns (i: nat)
      requires Valid()
      ensures i == Find(value.children, name)
    {
      i := 0;
      while i < |names| && names[i] != name
        invariant i <= |names|
        invariant Find(value.children, name) == i + Find(value.children[i..], name)
      {
        assert value.children[i..][1..] == value.children[i + 1..];
        i := i + 1;
      }
    }

    method MarkFile()
      requires Valid()
      modifies this
      ensures Valid() && repr == old(repr) && value == old(value).(isFile := true)
    {
      isFile, value := true, value.(isFile := true);
    }

    /** Add one path below this node. */
    method Insert(parts: Parts)
      requires Valid()
      modifies repr
      ensures Valid() && fresh(repr - old(repr))
      ensures value == Trie.Insert(old(value), parts)
      decreases |parts|, 1
    {
      if parts != [] {
        InsertByEntry(value, parts);
        var i := Entry(parts[0]);
        Descend(i, parts);
      }
    }

    /** Where `name` is; a new name gets a bare node. */
    method Entry(name: string) returns (i: nat)
      requires Valid()
      modifies this
      ensures Valid() && fresh(repr - old(repr)) && old(repr) <= repr
      ensures i == Find(old(value).children, name) && value == WithEntry(old(value), name)
    {
      i := Get(name);
      if i == |kids| {
        Add(name);
      }
    }

    method Add(name: string)
      requires Valid() && Find(value.children, name) == |value.children|
      modifies this
      ensures Valid() && fresh(repr - old(repr))
      ensures value == old(value).(children := old(value).children + [Child(name, BARE)])
      ensures old(repr) <= repr
    {
      var next := new TrieNode();
      names, kids, repr := names + [name], kids + [next], repr + {next};
      value := value.(children := value.children + [Child(name, BARE)]);
    }

    method Descend(i: nat, parts: Parts)
      requires Valid() && parts != [] && i < |value.children| && value.children[i].name == parts[0]
      modifies repr
      ensures Valid() && fresh(repr - old(repr))
      ensures value == old(value).(children :=
                old(value).children[i := Child(parts[0], Arrived(old(value).children[i].node, parts))])
      decreases |parts|, 0, 1
    {
      var next := kids[i];
      next.Arrive(parts);
      forall k | 0 <= k < |kids| && k != i
        ensures kids[k].Valid() && kids[k].repr == old(kids[k].repr) && kids[k].value == old(kids[k].value)
        ensures kids[k].repr !! next.repr && kids[k] != next
      {
        assert kids[k].repr !! old(next.repr);
        assert next.repr <= old(next.repr) + (next.repr - old(next.repr));
      }
      value, repr := value.(children := value.children[i := Child(parts[0], next.value)]), repr + next.repr;
    }

    method Arrive(parts: Parts)
      requires Valid() && parts != []
      modifies repr
      ensures Valid() && fresh(repr - old(repr))
      ensures value == Arrived(old(value), parts)
      decreases |parts|, 0, 0
    {
      if |parts| == 1 {
        MarkFile();
      }
      Insert(parts[1..]);
    }

    /** Follow a chain of lone directories from this node. */
    method Collapse(rawName: string) returns (name: string, node: TrieNode)
      requires Valid()
      ensures node.Valid() && node.repr <= repr
      ensures name == Join(Collapsed([rawName], value).names) && node.value == Collapsed([rawName], value).node
    {
      name, node := rawName, this;
      ghost var parts := [rawName];
      while !node.isFile && |node.kids| == 1
        invariant node.Valid() && node.repr <= repr
        invariant parts != [] && name == Join(parts)
        invariant Collapsed(parts, node.value) == Collapsed([rawName], value)
        decreases node.repr
      {
        JoinOneMore(parts, node.names[0]);
        parts := parts + [node.names[0]];
        name := name + [SLASH] + node.names[0];
        node := node.kids[0];
      }
    }

    /** The entries of the map in the given order. */
    method SortedEntries(leq: Order) returns (ps: seq<Pair>)
      requires Valid()
      ensures ArePairsOf(ps, Sorted(value.children, ByName(leq)))
      ensures forall p :: p in ps ==> p.1 in kids
    {
      var ns, ks := names, kids;
      var entries := seq(|ks|, i requires 0 <= i < |ks| && |ns| == |ks| => (ns[i], ks[i]));
      ps := Sorted(entries, ByKey(leq));
      SortedPairs(entries, value.children, leq);
      forall p | p in ps
        ensures p.1 in kids
      {
        assert p in multiset(entries);
      }
    }
  }

  lemma {:induction false} EntriesLead(node: TrieNode, ps: seq<Pair>, leq: Order)
    requires node.Valid() && ArePairsOf(ps, Sorted(node.value.children, ByName(leq)))
    requires forall p :: p in ps ==> p.1 in node.kids
    ensures LeadTo(ps, ViewsOf(node.value, leq), node.repr, leq)
  {
    SortedLength(node.value.children, ByName(leq));
    forall j | 0 <= j < |ps|
      ensures LeadsTo(ps[j].0, ps[j].1, ViewsOf(node.value, leq)[j], node.repr, leq)
    {
      ViewAt(Entries(node.value, leq), leq, j);
      assert ps[j] in ps;
    }
  }

  type Pair = (string, TrieNode)

  function ByKey(leq: Order): (Pair, Pair) -> bool {
    (a: Pair, b: Pair) => leq(a.0, b.0)
  }

  ghost predicate ArePairsOf(ps: seq<Pair>, cs: seq<Child>)
    reads set p | p in ps :: p.1
  {
    |ps| == |cs| && forall i :: 0 <= i < |ps| ==> cs[i] == Child(ps[i].0, ps[i].1.value)
  }

  lemma {:induction false} PlacedPair(p: Pair, ps: seq<Pair>, cs: seq<Child>, leq: Order)
    requires ArePairsOf(ps, cs)
    ensures ArePairsOf(Placed(p, ps, ByKey(leq)), Placed(Child(p.0, p.1.value), cs, ByName(leq)))
  {
    if ps != [] && !ByKey(leq)(p, ps[0]) {
      PlacedPair(p, ps[1..], cs[1..], leq);
    }
  }

  lemma {:induction false} SortedPairs(ps: seq<Pair>, cs: seq<Child>, leq: Order)
    requires ArePairsOf(ps, cs)
    ensures ArePairsOf(Sorted(ps, ByKey(leq)), Sorted(cs, ByName(leq)))
  {
    if ps != [] {
      SortedPairs(ps[1..], cs[1..], leq);
      PlacedPair(ps[0], Sorted(ps[1..], ByKey(leq)), Sorted(cs[1..], ByName(leq)), leq);
    }
  }

  lemma {:induction false} JoinOneMore(parts: seq<string>, name: string)
    requires parts != []
    ensures Join(parts + [name]) == Join(parts) + [SLASH] + name
  {
    assert (parts + [name])[1..] == parts[1..] + [name];
    if |parts| == 1 {
      assert parts[1..] + [name] == [name];
      assert JoinWith(SLASH, [name]) == name;
    } else {
      JoinOneMore(parts[1..], name);
    }
  }

  lemma {:induction false} ViewAt(es: seq<Entry>, leq: Order, i: nat)
    requires i < |es|
    ensures Views(es, leq)[i] == View(es[i].names, ViewsOf(es[i].node, leq))
  {
    if i > 0 {
      ViewAt(es[1..], leq, i - 1);
      assert Views(es, leq)[1..] == Views(es[1..], leq);
    }
  }

  /** What is still to print once `i` entries are printed. */
  function Remaining(vs: seq<View>, prefix: string, i: nat): seq<string>
    requires i <= |vs|
    decreases |vs| - i
  {
    if i == |vs| then [] else LinesUnder(vs[i], prefix, i == |vs| - 1) + Remaining(vs, prefix, i + 1)
  }

  lemma {:induction false} RemainingIsLines(vs: seq<View>, prefix: string, i: nat)
    requires i <= |vs|
    ensures Remaining(vs, prefix, i) == Lines(vs[i..], prefix)
    decreases |vs| - i
  {
    if i < |vs| {
      RemainingIsLines(vs, prefix, i + 1);
      var rest := vs[i..];
      assert rest[0] == vs[i] && rest[1..] == vs[i + 1..];
    }
  }

  lemma {:induction false} AllRemains(vs: seq<View>, prefix: string)
    ensures Remaining(vs, prefix, 0) == Lines(vs, prefix)
  {
    RemainingIsLines(vs, prefix, 0);
    assert vs[0..] == vs;
  }

  function ViewFor(rawName: string, raw: Node, leq: Order): View {
    var e := Collapsed([rawName], raw);
    View(e.names, ViewsOf(e.node, leq))
  }

  /** A valid node inside `parent`, and the view to be printed for it. */
  ghost predicate LeadsTo(rawName: string, raw: TrieNode, v: View, parent: set<TrieNode>, leq: Order)
    reads parent
  {
    raw in parent && raw.repr < parent && raw.Valid() && v == ViewFor(rawName, raw.value, leq)
  }

  ghost predicate LeadTo(entries: seq<Pair>, vs: seq<View>, parent: set<TrieNode>, leq: Order)
    reads parent
  {
    |entries| == |vs| && forall j :: 0 <= j < |vs| ==> LeadsTo(entries[j].0, entries[j].1, vs[j], parent, leq)
  }

  /** Append the lines of a node's entries to `out`. */
  method RenderNode(node: TrieNode, prefix: string, leq: Order, out: seq<string>) returns (lines: seq<string>)
    requires node.Valid()
    ensures lines == out + Lines(ViewsOf(node.value, leq), prefix)
    decreases node.repr, 1
  {
    var entries := node.SortedEntries(leq);
    ghost var vs := ViewsOf(node.value, leq);
    EntriesLead(node, entries, leq);
    AllRemains(vs, prefix);
    lines := RenderEach(entries, vs, node.repr, prefix, leq, out);
  }

  method RenderEach(entries: seq<Pair>, ghost vs: seq<View>, ghost parent: set<TrieNode>,
                    prefix: string, leq: Order, out: seq<string>) returns (lines: seq<string>)
    requires LeadTo(entries, vs, parent, leq)
    ensures lines == out + Remaining(vs, prefix, 0)
    decreases parent, 0
  {
    lines := out;
    var i := 0;
    while i < |entries|
      invariant i <= |entries|
      invariant lines + Remaining(vs, prefix, i) == out + Remaining(vs, prefix, 0)
    {
      assert LeadsTo(entries[i].0, entries[i].1, vs[i], parent, leq);
      Regroup(lines, LinesUnder(vs[i], prefix, i == |vs| - 1), Remaining(vs, prefix, i + 1));
      lines := RenderEntry(entries[i].0, entries[i].1, vs[i], prefix, i == |entries| - 1, leq, lines);
      i := i + 1;
    }
  }

  method RenderEntry(rawName: string, raw: TrieNode, ghost v: View, prefix: string, last: bool, leq: Order,
                     out: seq<string>) returns (lines: seq<string>)
    requires raw.Valid() && v == ViewFor(rawName, raw.value, leq)
    ensures lines == out + LinesUnder(v, prefix, last)
    decreases raw.repr, 2
  {
    var name, child := raw.Collapse(rawName);
    var line, deeper := prefix + (if last then ELBOW else TEE) + name, prefix + (if last then BLANK else BAR);
    lines := RenderNode(child, deeper, leq, out + [line]);
    Regroup(out, [line], Lines(v.below, deeper));
  }

  method SharedPrefix(a: Parts, b: Parts) returns (n: nat)
    ensures n <= |a| && n <= |b| && a[..n] == b[..n]
    ensures n < |a| && n < |b| ==> a[n] != b[n]
  {
    n := 0;
    while n < |a| && n < |b| && a[n] == b[n]
      invariant n <= |a| && n <= |b| && a[..n] == b[..n]
    {
      n := n + 1;
    }
  }

  lemma {:induction false} BothStart(a: Parts, b: Parts, n: nat, c: Parts)
    requires c <= a && c <= b && n < |c|
    ensures a[n] == b[n]
  {
    assert a[n] == c[n] && b[n] == c[n];
  }

  lemma {:induction false} SharedIsLongest(a: Parts, b: Parts, n: nat, c: Parts)
    requires n <= |a| && n <= |b| && a[..n] == b[..n] && (n < |a| && n < |b| ==> a[n] != b[n])
    ensures c <= a && c <= b <==> c <= a[..n]
  {
    if c <= a && c <= b && n < |c| {
      BothStart(a, b, n, c);
    }
    if c <= a[..n] {
      assert c <= b[..n];
    }
  }

  lemma {:induction false} CommonOfMore(all: seq<Parts>, k: nat, c: Parts)
    requires k < |all|
    ensures IsCommon(all[..k + 1], c) <==> IsCommon(all[..k], c) && c <= all[k]
  {
    var more := all[..k + 1];
    assert more == all[..k] + [all[k]];
    if IsCommon(more, c) {
      forall p | p in all[..k]
        ensures c <= p
      {
        assert p in more;
      }
      assert all[k] in more;
    }
  }

  /** The prefixes of `common` are those of `first` that `all` share. */
  ghost predicate SharedBy(common: Parts, first: Parts, all: seq<Parts>) {
    forall c: Parts :: c <= common <==> c <= first && IsCommon(all, c)
  }

  lemma {:induction false} SharedByMore(common: Parts, all: seq<Parts>, k: nat, n: nat)
    requires k < |all| && SharedBy(common, all[0], all[..k])
    requires n <= |common| && n <= |all[k]| && common[..n] == all[k][..n]
    requires n < |common| && n < |all[k]| ==> common[n] != all[k][n]
    ensures SharedBy(common[..n], all[0], all[..k + 1])
  {
    var more, shorter := all[..k + 1], common[..n];
    forall c: Parts
      ensures c <= shorter <==> c <= all[0] && IsCommon(more, c)
    {
      SharedIsLongest(common, all[k], n, c);
      CommonOfMore(all, k, c);
      assert c <= common <==> c <= all[0] && IsCommon(all[..k], c);
    }
    assert SharedBy(shorter, all[0], more);
  }

  lemma {:induction false} CommonIsRoot(all: seq<Parts>, common: Parts)
    requires all != [] && SharedBy(common, all[0], all)
    ensures LongestCommon(all, common)
    ensures |all| == 1 ==> common == all[0]
  {
    assert all[0] in all && common <= common && all[0] <= all[0];
    if |all| == 1 {
      assert IsCommon(all, all[0]);
    }
    forall c' | IsCommon(all, c')
      ensures |c'| <= |common|
    {
      assert c' <= all[0];
    }
  }

  lemma {:induction false} RootIsCommon(all: seq<Parts>, root: Parts)
    requires IsRoot(all, root)
    ensures IsCommon(all, root)
  {
    if |all| == 1 {
      assert all == [all[0]];
    }
  }

  method CommonRoot(all: seq<Parts>) returns (common: Parts)
    ensures IsRoot(all, common)
  {
    if all == [] {
      return [];
    }
    common := all[0];
    var k := 0;
    while k < |all|
      invariant k <= |all|
      invariant SharedBy(common, all[0], all[..k])
    {
      var n := SharedPrefix(common, all[k]);
      SharedByMore(common, all, k, n);
      common := common[..n];
      k := k + 1;
    }
    assert all[..k] == all;
    CommonIsRoot(all, common);
    if |all| == 1 && common != [] {
      common := common[..|common| - 1];
    }
  }

  /** The listing of these paths under their common root. */
  ghost predicate IsPrinted(lines: seq<string>, all: seq<Parts>, root: Parts, leq: Order) {
    && IsRoot(all, root) && IsCommon(all, root) && lines == Printed(all, root, leq)
    && lines[0] == "/" + Join(root)
  }

  function SplitAll(paths: seq<string>): (all: seq<Parts>)
    ensures forall p :: p in all ==> AllPlain(p)
  {
    seq(|paths|, i requires 0 <= i < |paths| => PartsOf(paths[i]))
  }

  /** The tree of all paths, less their common root. */
  method Planted(all: seq<Parts>, common: Parts) returns (tree: TrieNode)
    requires IsCommon(all, common)
    ensures tree.Valid() && fresh(tree.repr) && tree.value == Grown(all, |common|, |all|)
  {
    tree := new TrieNode();
    var k := 0;
    while k < |all|
      invariant k <= |all|
      invariant tree.Valid() && fresh(tree.repr) && tree.value == Grown(all, |common|, k)
    {
      assert all[k] in all;
      tree.Insert(all[k][|common|..]);
      k := k + 1;
    }
  }

  /** Print the files of one category. The lines of distinct files, none below another, decode to those files. */
  method RenderTree(paths: seq<string>, leq: Order) returns (lines: seq<string>)
    ensures exists root :: IsPrinted(lines, SplitAll(paths), root, leq)
    ensures var all := SplitAll(paths);
            Once(all) && PrefixFreePaths(all) && [] !in all ==>
              && Decoded(lines).Some? && Once(Decoded(lines).value)
              && forall p :: p in Decoded(lines).value <==> p in all
  {
    var all := SplitAll(paths);
    var common := CommonRoot(all);
    RootIsCommon(all, common);
    var tree := Planted(all, common);
    lines := RenderNode(tree, "", leq, [[SLASH] + Join(common)]);
    assert IsPrinted(lines, all, common, leq);
    if Once(all) && PrefixFreePaths(all) && [] !in all {
      FilesAreReadBack(all, common, leq);
    }
  }
}
