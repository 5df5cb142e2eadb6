/** Subsequences: what is left of a sequence when some of its elements are taken out. */
module Subseqs {

  predicate Within<T(==)>(s: seq<T>, whole: seq<T>) {
    || s == []
    || (&& whole != []
        && ((s[0] == whole[0] && Within(s[1..], whole[1..])) || Within(s, whole[1..])))
  }

  lemma {:induction false} WithinItself<T>(s: seq<T>)
    ensures Within(s, s)
  {
    if s != [] {
      WithinItself(s[1..]);
    }
  }

  lemma {:induction false} WithinMore<T>(s: seq<T>, before: seq<T>, whole: seq<T>)
    requires Within(s, whole)
    ensures Within(s, before + whole)
  {
    if before == [] {
      assert before + whole == whole;
    } else {
      WithinMore(s, before[1..], whole);
      assert (before + whole)[1..] == before[1..] + whole;
    }
  }

  /** Taking out of two parts is taking out of the whole. */
  lemma {:induction false} WithinBoth<T>(s: seq<T>, whole: seq<T>, t: seq<T>, rest: seq<T>)
    requires Within(s, whole) && Within(t, rest)
    ensures Within(s + t, whole + rest)
    decreases |whole|
  {
    if s == [] {
      assert s + t == t;
      WithinMore(t, whole, rest);
    } else {
      assert (whole + rest)[1..] == whole[1..] + rest;
      if s[0] == whole[0] && Within(s[1..], whole[1..]) {
        assert (s + t)[1..] == s[1..] + t;
        WithinBoth(s[1..], whole[1..], t, rest);
      } else {
        WithinBoth(s, whole[1..], t, rest);
      }
    }
  }

  lemma {:induction false} WithinIsTransitive<T>(a: seq<T>, b: seq<T>, c: seq<T>)
    requires Within(a, b) && Within(b, c)
    ensures Within(a, c)
    decreases |c|
  {
    if a != [] {
      if b[0] == c[0] && Within(b[1..], c[1..]) {
        if a[0] == b[0] && Within(a[1..], b[1..]) {
          WithinIsTransitive(a[1..], b[1..], c[1..]);
        } else {
          WithinIsTransitive(a, b[1..], c[1..]);
        }
      } else {
        WithinIsTransitive(a, b, c[1..]);
      }
    }
  }
}
