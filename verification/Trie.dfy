/** The tree of path parts behind the `--tree` listing, and the collapsing of its lone chains. */
module Trie {
  import opened Segments

  type Parts = seq<string>

  /** A directory's entries are in the order they were first inserted. */
  datatype Node = Node(isFile: bool, children: seq<Child>)

  datatype Child = Child(name: string, node: Node)

  const BARE := Node(false, [])

  function Weight(t: Node): nat {
    1 + WeightAll(t.children)
  }

  function WeightAll(cs: seq<Child>): nat {
    if cs == [] then 0 else Weight(cs[0].node) + WeightAll(cs[1..])
  }

  function Find(cs: seq<Child>, name: string): (i: nat)
    ensures i <= |cs|
    ensures i < |cs| ==> cs[i].name == name
    ensures forall j :: 0 <= j < i ==> cs[j].name != name
  {
    if cs == [] || cs[0].name == name then 0 else 1 + Find(cs[1..], name)
  }

  /** Is this path one of the files? */
  predicate Holds(t: Node, p: Parts)
    decreases |p|
  {
    if p == [] then t.isFile
    else
      var i := Find(t.children, p[0]);
      i < |t.children| && Holds(t.children[i].node, p[1..])
  }

  function Insert(t: Node, p: Parts): Node
    decreases |p|
  {
    if p == [] then t
    else
      var i := Find(t.children, p[0]);
      var prior := if i < |t.children| then t.children[i].node else BARE;
      var next := if |p| == 1 then prior.(isFile := true) else Insert(prior, p[1..]);
      t.(children := if i < |t.children| then t.children[i := Child(p[0], next)] else t.children + [Child(p[0], next)])
  }

  ghost predicate Distinct(cs: seq<Child>) {
    forall i, j :: 0 <= i < j < |cs| ==> cs[i].name != cs[j].name
  }

  /** Names are plain and distinct, and every branch ends in a file. */
  ghost predicate Proper(t: Node)
    decreases t
  {
    && Distinct(t.children)
    && forall c :: c in t.children ==> Plain(c.name) && Proper(c.node) && (c.node.isFile || c.node.children != [])
  }

  lemma {:induction false} FindIs(cs: seq<Child>, i: nat)
    requires Distinct(cs) && i < |cs|
    ensures Find(cs, cs[i].name) == i
  {
  }

  /** Inserting a path adds it, and nothing else. */
  lemma {:induction false} InsertAdds(t: Node, p: Parts, q: Parts)
    requires Proper(t)
    ensures Holds(Insert(t, p), q) <==> Holds(t, q) || (q == p && p != [])
    decreases |p|
  {
    if p != [] && q != [] {
      var i := Find(t.children, p[0]);
      var prior := if i < |t.children| then t.children[i].node else BARE;
      var next := if |p| == 1 then prior.(isFile := true) else Insert(prior, p[1..]);
      var cs := Insert(t, p).children;
      if q[0] == p[0] {
        assert cs[i].name == p[0];
        assert Find(cs, p[0]) == i by {
          assert forall j :: 0 <= j < i ==> cs[j] == t.children[j];
        }
        if |p| > 1 {
          InsertAdds(prior, p[1..], q[1..]);
        } else {
          HoldsIgnoresFlag(prior, q[1..]);
        }
        assert q == p <==> q[1..] == p[1..];
        if i == |t.children| && q[1..] != [] {
          assert !Holds(prior, q[1..]);
        }
      } else {
        FindElsewhere(t.children, cs, q[0], i);
      }
    }
  }

  lemma {:induction false} HoldsIgnoresFlag(t: Node, q: Parts)
    ensures q != [] ==> (Holds(t.(isFile := true), q) <==> Holds(t, q))
    ensures Holds(t.(isFile := true), [])
  {
  }

  /** Changing or adding the entry at `i` does not move other names. */
  lemma {:induction false} FindElsewhere(cs: seq<Child>, cs': seq<Child>, name: string, i: nat)
    requires i <= |cs| && i < |cs'|
    requires |cs'| == if i < |cs| then |cs| else |cs| + 1
    requires forall j :: 0 <= j < |cs| && j != i ==> cs'[j] == cs[j]
    requires cs'[i].name != name && (i < |cs| ==> cs[i].name != name)
    ensures var k := Find(cs, name); var k' := Find(cs', name);
            && (k < |cs| <==> k' < |cs'|)
            && (k < |cs| ==> cs'[k'] == cs[k])
  {
    var k, k' := Find(cs, name), Find(cs', name);
    if k < |cs| {
      assert cs'[k] == cs[k];
    }
    if k' < |cs'| {
      assert cs'[k'] == cs[k'];
    }
  }

  lemma {:induction false} InsertIsProper(t: Node, p: Parts)
    requires Proper(t) && AllPlain(p)
    ensures Proper(Insert(t, p))
    ensures p != [] ==> Insert(t, p).children != []
    ensures Insert(t, p).isFile == t.isFile
    decreases |p|
  {
    if p != [] {
      var i := Find(t.children, p[0]);
      var prior := if i < |t.children| then t.children[i].node else BARE;
      var next := if |p| == 1 then prior.(isFile := true) else Insert(prior, p[1..]);
      var r := Insert(t, p);
      assert Proper(prior) by {
        if i < |t.children| {
          assert t.children[i] in t.children;
        }
      }
      if |p| > 1 {
        InsertIsProper(prior, p[1..]);
      }
      assert Proper(next) && (next.isFile || next.children != []);
      forall c | c in r.children
        ensures Plain(c.name) && Proper(c.node) && (c.node.isFile || c.node.children != [])
      {
        if c != Child(p[0], next) {
          assert c in t.children;
        }
      }
    }
  }

  function SomePath(t: Node): Parts {
    if t.isFile || t.children == [] then [] else [t.children[0].name] + SomePath(t.children[0].node)
  }

  lemma {:induction false} BranchesEndInFiles(t: Node)
    requires Proper(t) && (t.isFile || t.children != [])
    ensures Holds(t, SomePath(t))
    decreases t
  {
    if !t.isFile {
      var c := t.children[0];
      assert c in t.children;
      BranchesEndInFiles(c.node);
      assert Find(t.children, c.name) == 0;
    }
  }
}
