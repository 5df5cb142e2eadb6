/**
 The chain of files behind a rolling log: the live file and its numbered generations, each capped at `max`
 bytes. A roll may stop after any of its steps when an operation throws.
 */
module LogChain {
  import opened Seqs
  import opened Bytes

  type Data = seq<byte>

  /** File 0 is the live one; file i is generation i. */
  type Chain = map<nat, Data>

  const NEWLINE: byte := 10

  function Live(ch: Chain): Data {
    if 0 in ch then ch[0] else []
  }

  // ---- cutting an oversized file -----------------------------------------------------------------------

  /** The offset of the first newline, or the length when there is none. */
  function FirstNewline(d: Data): (i: nat)
    ensures i <= |d|
  {
    if d == [] || d[0] == NEWLINE then 0 else 1 + FirstNewline(d[1..])
  }

  lemma {:induction false} FirstNewlineIs(d: Data)
    ensures forall j :: 0 <= j < FirstNewline(d) ==> d[j] != NEWLINE
    ensures FirstNewline(d) < |d| ==> d[FirstNewline(d)] == NEWLINE
  {
    if d != [] && d[0] != NEWLINE {
      FirstNewlineIs(d[1..]);
      forall j | 1 <= j < FirstNewline(d)
        ensures d[j] != NEWLINE
      {
        assert d[j] == d[1..][j - 1];
      }
    }
  }

  /** The last `max` bytes, from the first line that starts in them. */
  function Tail(d: Data, max: nat): Data {
    if |d| <= max then d
    else
      var window := d[|d| - max..];
      var nl := FirstNewline(window);
      if nl < |window| then window[nl + 1..] else window
  }

  /** The cut keeps at most `max` bytes from the end, and starts at a line unless no line starts there. */
  lemma {:induction false} TailIsLines(d: Data, max: nat)
    ensures |Tail(d, max)| <= max
    ensures |Tail(d, max)| <= |d| && Tail(d, max) == d[|d| - |Tail(d, max)|..]
    ensures var k := |d| - |Tail(d, max)|;
            || k == 0
            || d[k - 1] == 10
            || (|Tail(d, max)| == max && 10 !in Tail(d, max))
    ensures |d| > max ==> forall j :: |d| - max <= j < |d| - |Tail(d, max)| - 1 ==> d[j] != 10
  {
    if |d| > max {
      var window := d[|d| - max..];
      FirstNewlineIs(window);
      forall j | |d| - max <= j < |d| - |Tail(d, max)| - 1
        ensures d[j] != NEWLINE
      {
        assert d[j] == window[j - (|d| - max)];
      }
    }
  }

  lemma {:induction false} NewlineAfter(w: Data)
    requires NEWLINE !in w
    ensures FirstNewline(w + [NEWLINE]) == |w|
  {
    if w != [] {
      assert (w + [NEWLINE])[1..] == w[1..] + [NEWLINE];
      NewlineAfter(w[1..]);
    }
  }

  /** One line longer than the cap leaves an empty file. */
  lemma {:induction false} OversizedLineIsDropped(line: Data, max: nat)
    requires 10 !in line && |line| + 1 > max > 0
    ensures Tail(line + [10], max) == []
  {
    var d := line + [NEWLINE];
    var w := line[|d| - max..];
    assert d[|d| - max..] == w + [NEWLINE];
    NewlineAfter(w);
  }

  // ---- rolling -----------------------------------------------------------------------------------------

  function Moved(ch: Chain, from: nat, to: nat, max: nat): Chain
    requires from in ch
  {
    (ch - {from})[to := Tail(ch[from], max)]
  }

  /** The chain after the first `steps` steps of a roll over `n` generations. */
  function Rolling(ch: Chain, n: nat, max: nat, steps: nat): Chain
    requires n >= 1
    decreases steps
  {
    if steps == 0 then ch
    else
      var before := Rolling(ch, n, max, steps - 1);
      var i := n + 1 - steps;
      if steps == 1 then before - {n}
      else if 0 <= i < n && i in before then Moved(before, i, i + 1, max)
      else before
  }

  lemma {:induction false} RollingNext(ch: Chain, n: nat, max: nat, i: nat)
    requires i < n
    ensures Rolling(ch, n, max, 1) == ch - {n}
    ensures var before := Rolling(ch, n, max, n - i);
            Rolling(ch, n, max, n - i + 1) == if i in before then Moved(before, i, i + 1, max) else before
  {
  }

  /** A roll that runs to its end. */
  function Rolled(ch: Chain, n: nat, max: nat): Chain
    requires n >= 1
  {
    Rolling(ch, n, max, n + 1)
  }

  /** A roll has come down to file `at`: files above hold their lower neighbour's tail, files below are untouched. */
  ghost predicate Passed(ch: Chain, r: Chain, n: nat, max: nat, at: int, i: nat) {
    && (i < at || i > n ==> (i in r <==> i in ch) && (i in r ==> r[i] == ch[i]))
    && (i == at ==> i !in r)
    && (at < i <= n ==> (i in r <==> i - 1 in ch) && (i in r ==> r[i] == Tail(ch[i - 1], max)))
  }

  lemma {:induction false} MovedAt(ch: Chain, from: nat, to: nat, max: nat, i: nat)
    requires from in ch && from != to
    ensures i in Moved(ch, from, to, max) <==> i == to || (i != from && i in ch)
    ensures to in Moved(ch, from, to, max) && Moved(ch, from, to, max)[to] == Tail(ch[from], max)
    ensures i != from && i != to && i in ch ==> Moved(ch, from, to, max)[i] == ch[i]
  {
  }

  lemma {:induction false} PassedOne(ch: Chain, before: Chain, n: nat, max: nat, at: nat, i: nat)
    requires at < n
    requires Passed(ch, before, n, max, at + 1, at) && Passed(ch, before, n, max, at + 1, at + 1)
    requires Passed(ch, before, n, max, at + 1, i)
    ensures Passed(ch, if at in before then Moved(before, at, at + 1, max) else before, n, max, at, i)
  {
    if at in before {
      MovedAt(before, at, at + 1, max, i);
    }
  }

  /** What each file holds once a roll has passed it. */
  lemma {:induction false} RollingAt(ch: Chain, n: nat, max: nat, steps: nat, i: nat)
    requires n >= 1
    requires 1 <= steps <= n + 1
    ensures Passed(ch, Rolling(ch, n, max, steps), n, max, n + 1 - steps, i)
    decreases steps
  {
    if steps > 1 {
      var at := n + 1 - steps;
      RollingAt(ch, n, max, steps - 1, i);
      RollingAt(ch, n, max, steps - 1, at);
      RollingAt(ch, n, max, steps - 1, at + 1);
      PassedOne(ch, Rolling(ch, n, max, steps - 1), n, max, at, i);
    }
  }

  /** The live file is the last to move. */
  lemma {:induction false} LiveIsLast(ch: Chain, n: nat, max: nat)
    requires n >= 1
    ensures 0 in Rolling(ch, n, max, n) <==> 0 in ch
  {
    RollingAt(ch, n, max, n, 0);
  }

  /** After a full roll the generations are the old files one place on, cut to the cap, and the live file is gone. */
  lemma {:induction false} RolledAt(ch: Chain, n: nat, max: nat, i: nat)
    requires n >= 1
    ensures var r := Rolled(ch, n, max);
            && 0 !in r
            && (1 <= i <= n ==> (i in r <==> i - 1 in ch) && (i in r ==> r[i] == Tail(ch[i - 1], max)))
            && (i > n ==> (i in r <==> i in ch) && (i in r ==> r[i] == ch[i]))
  {
    RollingAt(ch, n, max, n + 1, i);
    RollingAt(ch, n, max, n + 1, 0);
  }

  ghost predicate GenerationsCapped(ch: Chain, n: nat, max: nat) {
    forall i :: 1 <= i <= n && i in ch ==> |ch[i]| <= max
  }

  /** Whatever it starts from, a roll leaves no generation over the cap. */
  lemma {:induction false} RolledIsCapped(ch: Chain, n: nat, max: nat)
    requires n >= 1
    ensures GenerationsCapped(Rolled(ch, n, max), n, max)
  {
    forall i | 1 <= i <= n && i in Rolled(ch, n, max)
      ensures |Rolled(ch, n, max)[i]| <= max
    {
      RolledAt(ch, n, max, i);
      TailIsLines(ch[i - 1], max);
    }
  }

  /** A roll that stops half-way leaves none either, if there was none. */
  lemma {:induction false} RollingStaysCapped(ch: Chain, n: nat, max: nat, steps: nat)
    requires n >= 1 && steps <= n + 1
    requires GenerationsCapped(ch, n, max)
    ensures GenerationsCapped(Rolling(ch, n, max, steps), n, max)
  {
    if steps > 0 {
      forall i | 1 <= i <= n && i in Rolling(ch, n, max, steps)
        ensures |Rolling(ch, n, max, steps)[i]| <= max
      {
        RollingAt(ch, n, max, steps, i);
        if i - 1 in ch {
          TailIsLines(ch[i - 1], max);
        }
      }
    }
  }

  // ---- history -----------------------------------------------------------------------------------------

  function Part(ch: Chain, i: nat): Data {
    if i in ch then ch[i] else []
  }

  /** Generations i..1, oldest first. */
  function Past(ch: Chain, i: nat): Data {
    if i == 0 then [] else Part(ch, i) + Past(ch, i - 1)
  }

  /** Everything the chain holds, oldest first. */
  function History(ch: Chain, n: nat): Data {
    Past(ch, n) + Live(ch)
  }

  ghost predicate IsSuffix(s: Data, whole: Data) {
    exists before: Data :: before + s == whole
  }

  lemma {:induction false} SuffixIs(before: Data, s: Data, whole: Data)
    requires before + s == whole
    ensures IsSuffix(s, whole)
  {
  }

  lemma {:induction false} SuffixOfAppended(s: Data, whole: Data, more: Data)
    requires IsSuffix(s, whole)
    ensures IsSuffix(s + more, whole + more)
  {
    var before: Data :| before + s == whole;
    assert before + (s + more) == whole + more;
  }

  lemma {:induction false} SuffixIsTransitive(a: Data, b: Data, d: Data)
    requires IsSuffix(a, b) && IsSuffix(b, d)
    ensures IsSuffix(a, d)
  {
    var inner: Data :| inner + a == b;
    var outer: Data :| outer + b == d;
    assert (outer + inner) + a == d;
  }

  ghost predicate AllCapped(ch: Chain, n: nat, max: nat) {
    forall i :: 0 <= i <= n && i in ch ==> |ch[i]| <= max
  }

  /** Shifting every file one place on shifts the history, when nothing needs cutting. */
  lemma {:induction false} PastShifts(ch: Chain, r: Chain, i: nat)
    requires i >= 1
    requires forall k :: 1 <= k <= i ==> Part(r, k) == Part(ch, k - 1)
    ensures Past(r, i) == Past(ch, i - 1) + Live(ch)
  {
    if i == 1 {
      assert Past(r, 0) == [] && Past(ch, 0) == [];
    } else {
      PastShifts(ch, r, i - 1);
      Regroup(Part(ch, i - 1), Past(ch, i - 2), Live(ch));
    }
  }

  lemma {:induction false} RolledFits(ch: Chain, n: nat, max: nat)
    requires n >= 1 && AllCapped(ch, n, max)
    ensures AllCapped(Rolled(ch, n, max), n, max)
    ensures forall k :: 1 <= k <= n ==> Part(Rolled(ch, n, max), k) == Part(ch, k - 1)
  {
    forall k | 0 <= k <= n
      ensures k in Rolled(ch, n, max) ==> |Rolled(ch, n, max)[k]| <= max
      ensures k > 0 ==> Part(Rolled(ch, n, max), k) == Part(ch, k - 1)
    {
      RolledAt(ch, n, max, k);
    }
  }

  /** A roll drops the oldest generation from the history, and nothing else. */
  lemma {:induction false} RolledHistory(ch: Chain, n: nat, max: nat)
    requires n >= 1
    requires AllCapped(ch, n, max)
    ensures AllCapped(Rolled(ch, n, max), n, max)
    ensures History(ch, n) == Part(ch, n) + History(Rolled(ch, n, max), n)
  {
    var r := Rolled(ch, n, max);
    RolledFits(ch, n, max);
    RolledAt(ch, n, max, 0);
    PastShifts(ch, r, n);
    Regroup(Part(ch, n), Past(ch, n - 1), Live(ch));
    NothingMore(Past(r, n));
  }
}
