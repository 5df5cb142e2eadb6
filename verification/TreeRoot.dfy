/** A whole `--tree` listing: the common root, the tree below it, and the theorem that the listing can be undone. */
module TreeRoot {
  import opened Segments
  import opened Seqs
  import opened Trie
  import opened TreeLines
  import opened TreeReading
  import opened Wrappers

  ghost predicate IsCommon(all: seq<Parts>, c: Parts) {
    forall p :: p in all ==> c <= p
  }

  ghost predicate LongestCommon(all: seq<Parts>, c: Parts) {
    IsCommon(all, c) && forall c' :: IsCommon(all, c') ==> |c'| <= |c|
  }

  /** The directory a listing hangs under: the longest common prefix, or a lone path's parent. */
  ghost predicate IsRoot(all: seq<Parts>, root: Parts) {
    if |all| == 0 then root == []
    else if |all| == 1 && all[0] != [] then root == all[0][..|all[0]| - 1]
    else LongestCommon(all, root)
  }

  /** The tree of what the first `k` paths have below the first `n` parts. */
  function Grown(all: seq<Parts>, n: nat, k: nat): Node
    requires k <= |all| && forall p :: p in all ==> n <= |p|
  {
    if k == 0 then BARE else Insert(Grown(all, n, k - 1), all[k - 1][n..])
  }

  function Printed(all: seq<Parts>, root: Parts, leq: Order): seq<string>
    requires forall p :: p in all ==> |root| <= |p|
  {
    [[SLASH] + Join(root)] + Lines(ViewsOf(Grown(all, |root|, |all|), leq), "")
  }

  function Decoded(lines: seq<string>): Option<seq<Parts>> {
    if lines == [] then None
    else
      match ReadAll(lines[1..])
      case None => None
      case Some(ts) => Some(Under(PartsOf(lines[0]), Leaves(ts, [])))
  }

  function Under(root: Parts, ps: seq<Parts>): seq<Parts> {
    seq(|ps|, i requires 0 <= i < |ps| => root + ps[i])
  }

  /** One of the first `k` paths goes on with `q` below the root. */
  ghost predicate Reaches(all: seq<Parts>, root: Parts, k: nat, q: Parts)
    requires k <= |all|
  {
    q != [] && exists i :: 0 <= i < k && all[i] == root + q
  }

  lemma {:induction false} GrownHolds(all: seq<Parts>, root: Parts, k: nat)
    requires k <= |all| && IsCommon(all, root) && forall p :: p in all ==> AllPlain(p)
    ensures Proper(Grown(all, |root|, k)) && !Grown(all, |root|, k).isFile
    ensures forall q :: Holds(Grown(all, |root|, k), q) <==> Reaches(all, root, k, q)
  {
    if k > 0 {
      GrownHolds(all, root, k - 1);
      assert all[k - 1] in all;
      var t, p := Grown(all, |root|, k - 1), all[k - 1][|root|..];
      assert all[k - 1] == root + p;
      InsertIsProper(t, p);
      forall q
        ensures Holds(Grown(all, |root|, k), q) <==> Reaches(all, root, k, q)
      {
        InsertAdds(t, p, q);
        SameTail(root, p, q);
        ReachesOneMore(all, root, k, q);
      }
    }
  }

  lemma {:induction false} ReachesOneMore(all: seq<Parts>, root: Parts, k: nat, q: Parts)
    requires 0 < k <= |all|
    ensures Reaches(all, root, k, q) <==> Reaches(all, root, k - 1, q) || (q != [] && all[k - 1] == root + q)
  {
    if Reaches(all, root, k, q) {
      var i :| 0 <= i < k && all[i] == root + q;
      assert i < k - 1 ==> Reaches(all, root, k - 1, q);
    }
  }

  /** Some path goes on past `p`. */
  ghost predicate Extends(all: seq<Parts>, p: Parts) {
    exists more: Parts :: more != [] && p + more in all
  }

  lemma {:induction false} DeepestUnderRoot(all: seq<Parts>, root: Parts, q: Parts)
    requires IsCommon(all, root) && forall p :: p in all ==> AllPlain(p)
    ensures Deepest(Grown(all, |root|, |all|), q) <==> root + q in all && q != [] && !Extends(all, root + q)
  {
    var t := Grown(all, |root|, |all|);
    GrownHolds(all, root, |all|);
    assert forall x :: Holds(t, x) <==> x != [] && root + x in all by {
      forall x
        ensures Reaches(all, root, |all|, x) <==> x != [] && root + x in all
      {
        if x != [] && root + x in all {
          var i :| 0 <= i < |all| && all[i] == root + x;
        }
      }
    }
    forall more: Parts | more != []
      ensures Holds(t, q + more) <==> (root + q) + more in all
    {
      assert root + (q + more) == (root + q) + more && q + more != [];
    }
  }

  lemma {:induction false} LinesDecode(lines: seq<string>, root: Parts, ts: seq<Token>)
    requires AllPlain(root) && lines != [] && lines[0] == [SLASH] + Join(root) && ReadAll(lines[1..]) == Some(ts)
    ensures Decoded(lines) == Some(Under(root, Leaves(ts, [])))
  {
    RootedParts(root);
  }

  lemma {:induction false} ListingDecodes(all: seq<Parts>, root: Parts, leq: Order)
    requires IsCommon(all, root) && AllPlain(root) && forall p :: p in all ==> AllPlain(p)
    ensures Decoded(Printed(all, root, leq))
         == Some(Under(root, Leaves(Tokens(ViewsOf(Grown(all, |root|, |all|), leq), 0), [])))
  {
    var t := Grown(all, |root|, |all|);
    var vs := ViewsOf(t, leq);
    GrownHolds(all, root, |all|);
    EntriesAreProper(t, leq);
    ViewsAreNamed(Entries(t, leq), leq);
    LinesHoldTokens(vs, "", 0);
    assert Printed(all, root, leq)[1..] == Lines(vs, "");
    LinesDecode(Printed(all, root, leq), root, Tokens(vs, 0));
  }

  lemma {:induction false} ListingFinds(all: seq<Parts>, root: Parts, found: seq<Parts>, p: Parts)
    requires IsCommon(all, root) && forall q :: q in all ==> AllPlain(q)
    requires forall q :: q in found <==> Deepest(Grown(all, |root|, |all|), q)
    ensures p in Under(root, found) <==> p in all && p != root && !Extends(all, p)
  {
    UnderHas(root, found, p);
    if root <= p {
      var q := p[|root|..];
      assert p == root + q;
      DeepestUnderRoot(all, root, q);
    }
  }

  /** Reading a listing back gives the paths below its root that no other path extends, each once. */
  lemma {:induction false} ListingReads(all: seq<Parts>, root: Parts, leq: Order)
    requires IsCommon(all, root) && AllPlain(root) && forall p :: p in all ==> AllPlain(p)
    ensures Decoded(Printed(all, root, leq)).Some?
    ensures Once(Decoded(Printed(all, root, leq)).value)
    ensures forall p :: p in Decoded(Printed(all, root, leq)).value <==> p in all && p != root && !Extends(all, p)
  {
    ListingDecodes(all, root, leq);
    var t := Grown(all, |root|, |all|);
    var found := Leaves(Tokens(ViewsOf(t, leq), 0), []);
    GrownHolds(all, root, |all|);
    ReadingIsDeepest(t, leq);
    UnderIsOnce(root, found);
    forall q
      ensures q in found <==> Deepest(t, q)
    {
      if Deepest(t, q) {
        DeepestHasChildren(t, q);
      }
    }
    forall p
      ensures p in Under(root, found) <==> p in all && p != root && !Extends(all, p)
    {
      ListingFinds(all, root, found, p);
    }
  }

  lemma {:induction false} DeepestHasChildren(t: Node, q: Parts)
    requires !t.isFile && Deepest(t, q)
    ensures t.children != []
  {
  }

  lemma {:induction false} UnderHas(root: Parts, ps: seq<Parts>, p: Parts)
    ensures p in Under(root, ps) <==> root <= p && p[|root|..] in ps
  {
    if p in Under(root, ps) {
      var i :| 0 <= i < |ps| && Under(root, ps)[i] == p;
      assert p[|root|..] == ps[i];
    }
    if root <= p && p[|root|..] in ps {
      var i :| 0 <= i < |ps| && ps[i] == p[|root|..];
      assert Under(root, ps)[i] == p;
    }
  }

  lemma {:induction false} UnderIsOnce(root: Parts, ps: seq<Parts>)
    requires Once(ps)
    ensures Once(Under(root, ps))
  {
    var us := Under(root, ps);
    forall i, j | 0 <= i < j < |us|
      ensures us[i] != us[j]
    {
      assert us[i][|root|..] == ps[i] && us[j][|root|..] == ps[j];
    }
  }

  ghost predicate PrefixFreePaths(all: seq<Parts>) {
    forall p :: p in all ==> !Extends(all, p)
  }

  /** The listing gives back exactly the paths iff none extends another and none is the printed root. */
  lemma {:induction false} ListingCanBeUndone(all: seq<Parts>, root: Parts, leq: Order)
    requires IsCommon(all, root) && AllPlain(root) && forall p :: p in all ==> AllPlain(p)
    ensures Decoded(Printed(all, root, leq)).Some?
    ensures (forall p :: p in Decoded(Printed(all, root, leq)).value <==> p in all)
       <==> PrefixFreePaths(all) && root !in all
  {
    ListingReads(all, root, leq);
    var d := Decoded(Printed(all, root, leq)).value;
    if forall p :: p in d <==> p in all {
      forall p | p in all
        ensures !Extends(all, p) && p != root
      {
        assert p in d;
      }
    }
  }

  lemma {:induction false} TwoSeparate(all: seq<Parts>, root: Parts, i: nat, j: nat)
    requires IsCommon(all, root) && Once(all) && i < |all| && j < |all| && i != j && all[i] == root
    ensures Extends(all, root)
  {
    assert all[j] in all && all[j] != all[i];
    var more := all[j][|root|..];
    assert root + more == all[j];
  }

  /** For distinct files, none below another and none of them the top directory, the root is no path. */
  lemma {:induction false} RootIsNoPath(all: seq<Parts>, root: Parts)
    requires IsRoot(all, root) && Once(all) && PrefixFreePaths(all) && [] !in all
    ensures IsCommon(all, root) && root !in all
  {
    forall i | 0 <= i < |all|
      ensures all[i] != root && root <= all[i]
    {
      assert all[i] in all;
      if |all| > 1 && all[i] == root {
        TwoSeparate(all, root, i, if i == 0 then 1 else 0);
      }
    }
  }

  /** The listing of distinct files, none below another, reads back to exactly those files. */
  lemma {:induction false} FilesAreReadBack(all: seq<Parts>, root: Parts, leq: Order)
    requires IsRoot(all, root) && forall p :: p in all ==> AllPlain(p)
    requires Once(all) && PrefixFreePaths(all) && [] !in all
    ensures IsCommon(all, root) && Decoded(Printed(all, root, leq)).Some?
    ensures Once(Decoded(Printed(all, root, leq)).value)
    ensures forall p :: p in Decoded(Printed(all, root, leq)).value <==> p in all
  {
    RootIsNoPath(all, root);
    assert AllPlain(root) by {
      if all != [] {
        assert all[0] in all && root <= all[0];
        forall p | p in root
          ensures Plain(p)
        {
          assert p in all[0];
        }
      }
    }
    ListingReads(all, root, leq);
  }
}
