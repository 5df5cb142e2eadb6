/** What the `--tree` listing prints for a tree of paths, and how those lines are read back. */
module TreeLines {
  import opened Segments
  import opened Sorting
  import opened Trie
  import opened Wrappers

  const BAR := "\U{2502}   "
  const BLANK := "    "
  const TEE := "\U{251C}\U{2500}\U{2500} "
  const ELBOW := "\U{2514}\U{2500}\U{2500} "

  /** A printed entry: the names of a chain, and the node the chain ends in. */
  datatype Entry = Entry(names: Parts, node: Node)

  type Order = (string, string) -> bool

  /** Follow a chain of lone directories. */
  function Collapsed(names: Parts, t: Node): (e: Entry)
    ensures Weight(e.node) <= Weight(t)
    decreases t
  {
    if !t.isFile && |t.children| == 1 then Collapsed(names + [t.children[0].name], t.children[0].node)
    else Entry(names, t)
  }

  /** These names lead from one node to another through directories that hold nothing else. */
  ghost predicate Chain(t: Node, names: Parts, end: Node)
    decreases |names|
  {
    if names == [] then end == t
    else !t.isFile && |t.children| == 1 && t.children[0].name == names[0] && Chain(t.children[0].node, names[1..], end)
  }

  /** A chain is followed to its end: what is printed is a file, or holds no entry or several. */
  lemma {:induction false} CollapsedIs(names: Parts, t: Node)
    ensures var e := Collapsed(names, t);
            && names <= e.names && Chain(t, e.names[|names|..], e.node)
            && (e.node.isFile || |e.node.children| != 1)
    decreases t
  {
    if !t.isFile && |t.children| == 1 {
      var more := names + [t.children[0].name];
      var e := Collapsed(more, t.children[0].node);
      CollapsedIs(more, t.children[0].node);
      assert e.names[|names|..][0] == more[|names|];
      assert e.names[|names|..][1..] == e.names[|more|..];
    }
  }

  function ByName(leq: Order): (Child, Child) -> bool {
    (a: Child, b: Child) => leq(a.name, b.name)
  }

  lemma {:induction false} PlacedWeighs(c: Child, cs: seq<Child>, leq: Order)
    ensures WeightAll(Placed(c, cs, ByName(leq))) == Weight(c.node) + WeightAll(cs)
  {
    if cs == [] || ByName(leq)(c, cs[0]) {
      assert ([c] + cs)[1..] == cs;
    } else {
      PlacedWeighs(c, cs[1..], leq);
      assert Placed(c, cs, ByName(leq))[1..] == Placed(c, cs[1..], ByName(leq));
    }
  }

  lemma {:induction false} SortedWeighs(cs: seq<Child>, leq: Order)
    ensures WeightAll(Sorted(cs, ByName(leq))) == WeightAll(cs)
  {
    if cs != [] {
      SortedWeighs(cs[1..], leq);
      PlacedWeighs(cs[0], Sorted(cs[1..], ByName(leq)), leq);
    }
  }

  function EntriesOf(cs: seq<Child>): (es: seq<Entry>)
    ensures |es| == |cs|
    ensures forall i :: 0 <= i < |cs| ==> es[i] == Collapsed([cs[i].name], cs[i].node)
    ensures EntryWeight(es) <= WeightAll(cs)
  {
    if cs == [] then []
    else
      var es := [Collapsed([cs[0].name], cs[0].node)] + EntriesOf(cs[1..]);
      assert es[1..] == EntriesOf(cs[1..]);
      es
  }

  function EntryWeight(es: seq<Entry>): nat {
    if es == [] then 0 else Weight(es[0].node) + EntryWeight(es[1..])
  }

  function Entries(t: Node, leq: Order): (es: seq<Entry>)
    ensures |es| == |t.children|
    ensures EntryWeight(es) < Weight(t)
  {
    SortedLength(t.children, ByName(leq));
    SortedWeighs(t.children, leq);
    EntriesOf(Sorted(t.children, ByName(leq)))
  }

  lemma {:induction false} SortedNames(cs: seq<Child>, leq: Order)
    ensures forall c :: c in Sorted(cs, ByName(leq)) <==> c in cs
  {
    forall c: Child
      ensures c in Sorted(cs, ByName(leq)) <==> c in cs
    {
      assert c in multiset(Sorted(cs, ByName(leq))) <==> c in multiset(cs);
    }
  }

  /** One entry for each child. */
  lemma {:induction false} EntriesAre(t: Node, leq: Order, e: Entry)
    ensures e in Entries(t, leq) <==> exists c :: c in t.children && e == Collapsed([c.name], c.node)
  {
    var cs, es := Sorted(t.children, ByName(leq)), Entries(t, leq);
    SortedNames(t.children, leq);
    if c :| c in t.children && e == Collapsed([c.name], c.node) {
      var k :| 0 <= k < |cs| && cs[k] == c;
      assert es[k] == e;
    }
  }

  lemma {:induction false} NamesAreOrdered(leq: Order)
    requires TotalPreorder(leq)
    ensures TotalPreorder(ByName(leq))
  {
    forall x: Child, y: Child
      ensures ByName(leq)(x, y) || ByName(leq)(y, x)
    {
      assert leq(x.name, y.name) || leq(y.name, x.name);
    }
    forall x: Child, y: Child, z: Child | ByName(leq)(x, y) && ByName(leq)(y, z)
      ensures ByName(leq)(x, z)
    {
      assert leq(x.name, y.name) && leq(y.name, z.name);
    }
  }

  /** They come in the order of the children's own names, whatever the chains add. */
  lemma {:induction false} EntriesInOrder(t: Node, leq: Order, i: nat, j: nat)
    requires TotalPreorder(leq) && i < j < |Entries(t, leq)|
    ensures var e, f := Entries(t, leq)[i], Entries(t, leq)[j];
            e.names != [] && f.names != [] && leq(e.names[0], f.names[0])
  {
    var cs := Sorted(t.children, ByName(leq));
    NamesAreOrdered(leq);
    SortedIsOrdered(t.children, ByName(leq));
    CollapsedIs([cs[i].name], cs[i].node);
    CollapsedIs([cs[j].name], cs[j].node);
    assert ByName(leq)(cs[i], cs[j]);
  }

  /** What is printed of a tree: each entry with the entries below it, in order. */
  datatype View = View(names: Parts, below: seq<View>)

  function Views(es: seq<Entry>, leq: Order): (vs: seq<View>)
    ensures |vs| == |es|
    decreases EntryWeight(es), |es|
  {
    if es == [] then []
    else [View(es[0].names, Views(Entries(es[0].node, leq), leq))] + Views(es[1..], leq)
  }

  function ViewsOf(t: Node, leq: Order): seq<View> {
    Views(Entries(t, leq), leq)
  }

  function Lines(vs: seq<View>, prefix: string): seq<string>
    decreases vs
  {
    if vs == [] then [] else LinesUnder(vs[0], prefix, |vs| == 1) + Lines(vs[1..], prefix)
  }

  function LinesUnder(v: View, prefix: string, last: bool): seq<string>
    decreases v
  {
    [prefix + (if last then ELBOW else TEE) + Join(v.names)]
      + Lines(v.below, prefix + (if last then BLANK else BAR))
  }

  /** How many lines an entry takes. */
  function EntryLines(v: View): nat
    decreases v
  {
    1 + LineCount(v.below, |v.below|)
  }

  /** How many lines the first `i` entries take. */
  function LineCount(vs: seq<View>, i: nat): nat
    requires i <= |vs|
    decreases vs, i
  {
    if i == 0 then 0 else EntryLines(vs[0]) + LineCount(vs[1..], i - 1)
  }

  lemma {:induction false} LinesHaveCount(vs: seq<View>, prefix: string)
    ensures |Lines(vs, prefix)| == LineCount(vs, |vs|)
    decreases vs
  {
    if vs != [] {
      UnderHasCount(vs[0], prefix, |vs| == 1);
      LinesHaveCount(vs[1..], prefix);
    }
  }

  lemma {:induction false} UnderHasCount(v: View, prefix: string, last: bool)
    ensures |LinesUnder(v, prefix, last)| == EntryLines(v)
    decreases v
  {
    LinesHaveCount(v.below, prefix + (if last then BLANK else BAR));
  }

  lemma {:induction false} UnderPrints(v: View, prefix: string, last: bool)
    ensures |LinesUnder(v, prefix, last)| == EntryLines(v) >= 1
    ensures LinesUnder(v, prefix, last)[0] ==
            prefix + (if last then "\U{2514}\U{2500}\U{2500} " else "\U{251C}\U{2500}\U{2500} ") + Join(v.names)
    ensures LinesUnder(v, prefix, last)[1..] == Lines(v.below, prefix + (if last then "    " else "\U{2502}   "))
  {
    UnderHasCount(v, prefix, last);
  }

  /**
   The line of the `i`-th entry: the last entry, and no other, has the corner. Below it stand the lines of its own
   entries, behind a bar unless it is the last.
   */
  lemma {:induction false} EntryPrints(vs: seq<View>, prefix: string, i: nat)
    requires i < |vs|
    ensures var lines, at, end := Lines(vs, prefix), LineCount(vs, i), LineCount(vs, i + 1);
            && at < end <= |lines|
            && lines[at] == prefix + (if i == |vs| - 1 then "\U{2514}\U{2500}\U{2500} "
                                      else "\U{251C}\U{2500}\U{2500} ") + Join(vs[i].names)
            && lines[at + 1..end] == Lines(vs[i].below, prefix + (if i == |vs| - 1 then "    " else "\U{2502}   "))
  {
    var lines, at, end := Lines(vs, prefix), LineCount(vs, i), LineCount(vs, i + 1);
    var last := i == |vs| - 1;
    EntryStands(vs, prefix, i);
    UnderPrints(vs[i], prefix, last);
    assert lines[at..end][0] == lines[at] && lines[at..end][1..] == lines[at + 1..end];
  }

  lemma {:induction false} EntryStands(vs: seq<View>, prefix: string, i: nat)
    requires i < |vs|
    ensures LineCount(vs, i) < LineCount(vs, i + 1) <= |Lines(vs, prefix)|
    ensures Lines(vs, prefix)[LineCount(vs, i)..LineCount(vs, i + 1)] == LinesUnder(vs[i], prefix, i == |vs| - 1)
    decreases |vs|
  {
    var first, rest := LinesUnder(vs[0], prefix, |vs| == 1), Lines(vs[1..], prefix);
    UnderHasCount(vs[0], prefix, |vs| == 1);
    if i > 0 {
      EntryStands(vs[1..], prefix, i - 1);
      Behind(first, rest, LineCount(vs[1..], i - 1), LineCount(vs[1..], i));
    } else {
      assert (first + rest)[0..|first|] == first;
    }
  }

  lemma {:induction false} Behind(first: seq<string>, rest: seq<string>, a: nat, b: nat)
    requires a < b <= |rest|
    ensures (first + rest)[|first| + a..|first| + b] == rest[a..b]
  {
  }

  // ---------------------------------------------------------------- reading the lines back

  /** A line says how deep its entry stands and what its chain is called. */
  datatype Token = Token(depth: nat, names: Parts)

  function Read(line: string): Option<Token> {
    if |line| < 4 then None
    else if line[..4] == TEE || line[..4] == ELBOW then Some(Token(0, Split(line[4..])))
    else if line[..4] == BAR || line[..4] == BLANK then
      match Read(line[4..])
      case None => None
      case Some(t) => Some(Token(t.depth + 1, t.names))
    else None
  }

  function ReadAll(lines: seq<string>): Option<seq<Token>> {
    if lines == [] then Some([])
    else
      match (Read(lines[0]), ReadAll(lines[1..]))
      case (Some(t), Some(ts)) => Some([t] + ts)
      case _ => None
  }

  /** Paths of the entries with nothing below them; `above[k]` is the last path seen at depth k. */
  function Leaves(ts: seq<Token>, above: seq<Parts>): seq<Parts>
    decreases |ts|
  {
    if ts == [] || ts[0].depth > |above| then []
    else
      var d := ts[0].depth;
      var here := Base(above, d) + ts[0].names;
      var leaf := |ts| == 1 || ts[1].depth <= d;
      (if leaf then [here] else []) + Leaves(ts[1..], above[..d] + [here])
  }

  function Base(above: seq<Parts>, d: nat): Parts
    requires d <= |above|
  {
    if d == 0 then [] else above[d - 1]
  }

  // ---------------------------------------------------------------- lines hold the tokens

  function Tokens(vs: seq<View>, d: nat): seq<Token>
    decreases vs
  {
    if vs == [] then []
    else [Token(d, vs[0].names)] + Tokens(vs[0].below, d + 1) + Tokens(vs[1..], d)
  }

  /** `d` blocks of four columns. */
  ghost predicate Blocks(prefix: string, d: nat) {
    if d == 0 then prefix == ""
    else |prefix| >= 4 && (prefix[..4] == BAR || prefix[..4] == BLANK) && Blocks(prefix[4..], d - 1)
  }

  lemma {:induction false} BlocksExtend(prefix: string, d: nat, block: string)
    requires Blocks(prefix, d) && (block == BAR || block == BLANK)
    ensures Blocks(prefix + block, d + 1)
  {
    if d == 0 {
      assert prefix + block == block && block[4..] == "";
    } else {
      assert (prefix + block)[..4] == prefix[..4] && (prefix + block)[4..] == prefix[4..] + block;
      BlocksExtend(prefix[4..], d - 1, block);
    }
  }

  lemma {:induction false} ReadMarked(line: string, mark: string, name: string)
    requires |line| >= 4 && line[..4] == mark && line[4..] == name && (mark == TEE || mark == ELBOW)
    ensures Read(line) == Some(Token(0, Split(name)))
  {
  }

  lemma {:induction false} ReadBlocked(line: string, block: string, rest: string)
    requires |line| >= 4 && line[..4] == block && line[4..] == rest && (block == BAR || block == BLANK)
    requires Read(rest).Some?
    ensures Read(line) == Some(Token(Read(rest).value.depth + 1, Read(rest).value.names))
  {
  }

  lemma {:induction false} Dropped(prefix: string, mark: string, name: string)
    requires |prefix| >= 4
    ensures (prefix + mark + name)[..4] == prefix[..4] && (prefix + mark + name)[4..] == prefix[4..] + mark + name
  {
  }

  lemma {:induction false} ReadBehind(prefix: string, d: nat, mark: string, name: string)
    requires Blocks(prefix, d) && (mark == TEE || mark == ELBOW)
    ensures Read(prefix + mark + name) == Some(Token(d, Split(name)))
  {
    var line := prefix + mark + name;
    if d == 0 {
      assert line[..4] == mark && line[4..] == name;
      ReadMarked(line, mark, name);
    } else {
      Dropped(prefix, mark, name);
      ReadBehind(prefix[4..], d - 1, mark, name);
      ReadBlocked(line, prefix[..4], prefix[4..] + mark + name);
    }
  }

  lemma {:induction false} ReadAllJoins(a: seq<string>, b: seq<string>, ta: seq<Token>, tb: seq<Token>)
    requires ReadAll(a) == Some(ta) && ReadAll(b) == Some(tb)
    ensures ReadAll(a + b) == Some(ta + tb)
  {
    if a == [] {
      assert a + b == b && ta + tb == tb;
    } else {
      assert (a + b)[1..] == a[1..] + b;
      ReadAllJoins(a[1..], b, ta[1..], tb);
      assert ta + tb == [ta[0]] + (ta[1..] + tb);
    }
  }

  /** Every chain has a name, and names hold no slash. */
  ghost predicate Named(vs: seq<View>)
    decreases vs
  {
    vs == [] || (vs[0].names != [] && AllPlain(vs[0].names) && Named(vs[0].below) && Named(vs[1..]))
  }

  /** The printed lines hold depth and names of every entry. */
  lemma {:induction false} LinesHoldTokens(vs: seq<View>, prefix: string, d: nat)
    requires Named(vs) && Blocks(prefix, d)
    ensures ReadAll(Lines(vs, prefix)) == Some(Tokens(vs, d))
    decreases vs
  {
    if vs != [] {
      var last := |vs| == 1;
      var mark := if last then ELBOW else TEE;
      var block := if last then BLANK else BAR;
      var line := prefix + mark + Join(vs[0].names);
      ReadBehind(prefix, d, mark, Join(vs[0].names));
      SplitJoins(SLASH, vs[0].names);
      BlocksExtend(prefix, d, block);
      LinesHoldTokens(vs[0].below, prefix + block, d + 1);
      LinesHoldTokens(vs[1..], prefix, d);
      var below, after := Lines(vs[0].below, prefix + block), Lines(vs[1..], prefix);
      var own := [Token(d, vs[0].names)];
      assert ReadAll([line]) == Some(own) by {
        assert [line][1..] == [] && own + [] == own;
        assert Read([line][0]) == Some(own[0]);
      }
      ReadAllJoins([line], below, own, Tokens(vs[0].below, d + 1));
      ReadAllJoins([line] + below, after, own + Tokens(vs[0].below, d + 1), Tokens(vs[1..], d));
    }
  }

  // ---------------------------------------------------------------- the printed entries of a proper tree

  ghost predicate ProperEntry(e: Entry) {
    e.names != [] && AllPlain(e.names) && Proper(e.node)
  }

  lemma {:induction false} CollapsedIsProper(names: Parts, t: Node)
    requires Proper(t) && AllPlain(names) && names != []
    ensures ProperEntry(Collapsed(names, t)) && names <= Collapsed(names, t).names
    decreases t
  {
    if !t.isFile && |t.children| == 1 {
      var c := t.children[0];
      assert c in t.children;
      CollapsedIsProper(names + [c.name], c.node);
    }
  }

  /** An entry stands for one child. */
  lemma {:induction false} EntryChild(t: Node, leq: Order, i: nat) returns (c: Child)
    requires i < |Entries(t, leq)|
    ensures c in t.children && c == Sorted(t.children, ByName(leq))[i]
    ensures Entries(t, leq)[i] == Collapsed([c.name], c.node)
  {
    var r := Sorted(t.children, ByName(leq));
    c := r[i];
    assert c in multiset(t.children);
  }

  lemma {:induction false} ChildEntry(t: Node, leq: Order, c: Child) returns (i: nat)
    requires c in t.children
    ensures i < |Entries(t, leq)|
    ensures Entries(t, leq)[i] == Collapsed([c.name], c.node)
  {
    var r := Sorted(t.children, ByName(leq));
    assert c in multiset(r);
    i :| 0 <= i < |r| && r[i] == c;
  }

  lemma {:induction false} EntriesAreProper(t: Node, leq: Order)
    requires Proper(t)
    ensures forall e :: e in Entries(t, leq) ==> ProperEntry(e)
  {
    var es := Entries(t, leq);
    forall i | 0 <= i < |es|
      ensures ProperEntry(es[i])
    {
      var c := EntryChild(t, leq, i);
      CollapsedIsProper([c.name], c.node);
    }
  }

  lemma {:induction false} ViewsAreNamed(es: seq<Entry>, leq: Order)
    requires forall e :: e in es ==> ProperEntry(e)
    ensures Named(Views(es, leq))
    decreases EntryWeight(es), |es|
  {
    if es != [] {
      assert es[0] in es;
      EntriesAreProper(es[0].node, leq);
      ViewsAreNamed(Entries(es[0].node, leq), leq);
      ViewsAreNamed(es[1..], leq);
      assert Views(es, leq)[1..] == Views(es[1..], leq);
    }
  }
}
