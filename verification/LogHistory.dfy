/** What whole runs of a rolling log keep: its history, and its size in the presence of other appenders. */
module LogHistory {
  import opened Seqs
  import opened Subseqs
  import opened LogChain
  import opened RollingWriter

  // ---- one writer ----------------------------------------------------------------------------------------

  function Written(run: seq<Write>): Data {
    if run == [] then [] else Added(run[0]) + Written(run[1..])
  }

  /** What a write adds, if its append succeeds. */
  function Added(w: Write): Data {
    if w.lands then w.data else []
  }

  /** Every record fits a file, every look-up succeeds and no roll is interrupted. */
  ghost predicate Orderly(run: seq<Write>, n: nat, max: nat) {
    forall w :: w in run ==> |w.data| <= max && w.look.Sees? && w.steps > n
  }

  /** The generations present are the newest ones, without a gap. */
  ghost predicate Contiguous(ch: Chain, n: nat) {
    forall i :: 2 <= i <= n && i in ch ==> i - 1 in ch
  }

  ghost predicate AllThere(ch: Chain, n: nat) {
    forall i :: 1 <= i <= n ==> i in ch
  }

  lemma {:induction false} RollKeepsShape(ch: Chain, n: nat, max: nat)
    requires n >= 1 && 0 in ch
    ensures Contiguous(ch, n) ==> Contiguous(Rolled(ch, n, max), n)
    ensures Contiguous(ch, n) && n in ch ==> AllThere(Rolled(ch, n, max), n)
    ensures AllThere(ch, n) ==> AllThere(Rolled(ch, n, max), n)
  {
    forall i | 1 <= i <= n
      ensures i in Rolled(ch, n, max) <==> i - 1 in ch
    {
      RolledAt(ch, n, max, i);
    }
    if Contiguous(ch, n) && n in ch {
      DownFrom(ch, n, n);
    }
  }

  lemma {:induction false} LookedIsLanded(ch: Chain, n: nat, max: nat, w: Write)
    requires n >= 1 && w.look.Sees? && w.steps > n
    ensures Looked(ch, n, max, w) == Landed(if Full(|Live(ch)|, w.data, max) then Rolled(ch, n, max) else ch, w)
  {
  }

  lemma {:induction false} LookedShape(ch: Chain, n: nat, max: nat, w: Write)
    requires n >= 1 && w.look.Sees? && w.steps > n
    ensures Contiguous(ch, n) ==> Contiguous(Looked(ch, n, max, w), n)
    ensures AllThere(ch, n) ==> AllThere(Looked(ch, n, max, w), n)
    ensures Contiguous(ch, n) && Full(|Live(ch)|, w.data, max) && n in ch ==> AllThere(Looked(ch, n, max, w), n)
  {
    LookedIsLanded(ch, n, max, w);
    if Full(|Live(ch)|, w.data, max) {
      RollKeepsShape(ch, n, max);
    }
  }

  lemma {:induction false} LookedHistory(ch: Chain, n: nat, max: nat, w: Write)
    requires n >= 1 && w.look.Sees? && w.steps > n
    requires AllCapped(ch, n, max) && |w.data| <= max
    ensures AllCapped(Looked(ch, n, max, w), n, max)
    ensures IsSuffix(History(Looked(ch, n, max, w), n), History(ch, n) + Added(w))
    ensures !Full(|Live(ch)|, w.data, max) || n !in ch ==>
              History(Looked(ch, n, max, w), n) == History(ch, n) + Added(w)
  {
    var d := Added(w);
    LookedIsLanded(ch, n, max, w);
    if Full(|Live(ch)|, w.data, max) {
      var r := Rolled(ch, n, max);
      RolledHistory(ch, n, max);
      RolledAt(ch, n, max, 0);
      LandedHistory(r, n, w);
      Regroup(Part(ch, n), History(r, n), d);
      NothingMore(History(r, n));
      SuffixIs(Part(ch, n), History(r, n) + d, History(ch, n) + d);
    } else {
      LandedHistory(ch, n, w);
      NothingMore(History(ch, n) + d);
      SuffixIs([], History(ch, n) + d, History(ch, n) + d);
    }
  }

  lemma {:induction false} DownFrom(ch: Chain, n: nat, k: nat)
    requires Contiguous(ch, n)
    requires 1 <= k <= n && k in ch
    ensures forall i :: 1 <= i <= k ==> i in ch
  {
    if k > 1 {
      DownFrom(ch, n, k - 1);
    }
  }

  lemma {:induction false} AppendedHistory(ch: Chain, n: nat, d: Data)
    ensures History(Appended(ch, d), n) == History(ch, n) + d
  {
    PastIgnoresLive(ch, Appended(ch, d), n);
  }

  lemma {:induction false} LandedHistory(ch: Chain, n: nat, w: Write)
    ensures History(Landed(ch, w), n) == History(ch, n) + Added(w)
  {
    AppendedHistory(ch, n, w.data);
    NothingMore(History(ch, n));
  }

  lemma {:induction false} PastIgnoresLive(ch: Chain, ch': Chain, i: nat)
    requires forall k :: 1 <= k <= i ==> (k in ch <==> k in ch') && (k in ch ==> ch[k] == ch'[k])
    ensures Past(ch, i) == Past(ch', i)
  {
    if i > 0 {
      PastIgnoresLive(ch, ch', i - 1);
    }
  }

  lemma {:induction false} SuffixChains(last: Data, next: Data, first: Data, d: Data, rest: Data)
    requires IsSuffix(next, first + d) && IsSuffix(last, next + rest)
    ensures IsSuffix(last, first + (d + rest))
    ensures next == first + d && last == next + rest ==> last == first + (d + rest)
  {
    SuffixOfAppended(next, first + d, rest);
    assert first + d + rest == first + (d + rest);
    SuffixIsTransitive(last, next + rest, first + (d + rest));
  }

  /**
   Read oldest to newest, the files are a suffix of everything ever written, each within the cap; and as long
   as fewer than `n` generations exist they are all of it.
   */
  lemma {:induction false} HistoryIsSuffix(ch: Chain, n: nat, max: nat, run: seq<Write>)
    requires n >= 1
    requires AllCapped(ch, n, max) && Orderly(run, n, max)
    ensures AllCapped(RunLooked(ch, n, max, run), n, max)
    ensures IsSuffix(History(RunLooked(ch, n, max, run), n), History(ch, n) + Written(run))
    ensures Contiguous(ch, n) ==>
              || History(RunLooked(ch, n, max, run), n) == History(ch, n) + Written(run)
              || AllThere(RunLooked(ch, n, max, run), n)
    ensures AllThere(ch, n) ==> AllThere(RunLooked(ch, n, max, run), n)
    decreases |run|
  {
    if run == [] {
      assert History(ch, n) + [] == History(ch, n) && [] + History(ch, n) == History(ch, n);
    } else {
      var d, rest := Added(run[0]), run[1..];
      var next := Looked(ch, n, max, run[0]);
      assert run[0] in run;
      LookedHistory(ch, n, max, run[0]);
      LookedShape(ch, n, max, run[0]);
      HistoryIsSuffix(next, n, max, rest);
      SuffixChains(History(RunLooked(next, n, max, rest), n), History(next, n), History(ch, n), d, Written(rest));
    }
  }

  /** The same for the writer with the cached counter, from its first write on. */
  lemma {:induction false} CachedHistoryIsSuffix(ch: Chain, n: nat, max: nat, run: seq<Write>)
    requires n >= 1
    requires AllCapped(ch, n, max) && Orderly(run, n, max)
    ensures AllCapped(RunCached(FRESH, ch, n, max, run), n, max)
    ensures IsSuffix(History(RunCached(FRESH, ch, n, max, run), n), History(ch, n) + Written(run))
  {
    CachedRefinesLooked(FRESH, ch, n, max, run);
    HistoryIsSuffix(ch, n, max, run);
  }

  /** The length of everything handed to the writer. */
  function Offered(run: seq<Write>): (k: nat)
    ensures k >= |Written(run)|
    ensures (forall w :: w in run ==> w.lands) ==> k == |Written(run)|
  {
    if run == [] then 0
    else
      assert run[0] in run;
      |run[0].data| + Offered(run[1..])
  }

  /** While everything fits, the live file is all of it and no generation is made, whatever fails. */
  lemma {:induction false} NothingRollsWhileAllFits(ch: Chain, n: nat, max: nat, run: seq<Write>)
    requires n >= 1 && |Live(ch)| + Offered(run) <= max
    ensures Live(RunLooked(ch, n, max, run)) == Live(ch) + Written(run)
    ensures forall i :: i >= 1 ==> (i in RunLooked(ch, n, max, run) <==> i in ch)
    ensures forall i :: i >= 1 && i in ch ==> RunLooked(ch, n, max, run)[i] == ch[i]
    decreases |run|
  {
    if run == [] {
      NothingMore(Live(ch));
    } else {
      FittingRecordGrows(ch, n, max, run[0]);
      var next := Looked(ch, n, max, run[0]);
      NothingMore(Live(ch));
      NothingRollsWhileAllFits(next, n, max, run[1..]);
      Regroup(Live(ch), Added(run[0]), Written(run[1..]));
    }
  }

  /** The same for the cached counter, as long as it is right. */
  lemma {:induction false} NothingRollsWhileCountFits(k: Counter, ch: Chain, n: nat, max: nat, run: seq<Write>)
    requires n >= 1 && |Live(ch)| + Offered(run) <= max
    requires Accurate(k, ch) && forall w :: w in run ==> w.look.Sees?
    ensures Live(RunCached(k, ch, n, max, run)) == Live(ch) + Written(run)
    ensures forall i :: i >= 1 ==> (i in RunCached(k, ch, n, max, run) <==> i in ch)
  {
    CachedRefinesLooked(k, ch, n, max, run);
    NothingRollsWhileAllFits(ch, n, max, run);
  }

  // ---- interrupted rolls ---------------------------------------------------------------------------------

  lemma {:induction false} HistoryNext(ch: Chain, i: nat)
    requires i >= 1
    ensures History(ch, i) == Part(ch, i) + History(ch, i - 1)
  {
    Regroup(Part(ch, i), Past(ch, i - 1), Live(ch));
  }

  lemma {:induction false} SameHistory(ch: Chain, r: Chain, i: nat)
    requires forall k :: 0 <= k <= i ==> Part(r, k) == Part(ch, k)
    ensures History(r, i) == History(ch, i)
  {
    if i > 0 {
      SameHistory(ch, r, i - 1);
      HistoryNext(ch, i);
      HistoryNext(r, i);
    } else {
      assert Part(r, 0) == Part(ch, 0);
    }
  }

  lemma {:induction false} TailIsWithin(d: Data, max: nat)
    ensures Within(Tail(d, max), d)
  {
    TailIsLines(d, max);
    var k := |d| - |Tail(d, max)|;
    assert d == d[..k] + Tail(d, max);
    WithinItself(Tail(d, max));
    WithinMore(Tail(d, max), d[..k], Tail(d, max));
  }

  /** Without its oldest file a history lacks what that held, and nothing else. */
  lemma {:induction false} RemovedIsWithin(ch: Chain, i: nat)
    requires i >= 1
    ensures Within(History(ch - {i}, i), History(ch, i))
  {
    var r := ch - {i};
    SameHistory(ch, r, i - 1);
    HistoryNext(ch, i);
    HistoryNext(r, i);
    NothingMore(History(r, i - 1));
    WithinItself(History(r, i - 1));
    WithinMore(History(r, i - 1), Part(ch, i), History(r, i - 1));
  }

  /** What the files younger than `j` hold. */
  function Younger(ch: Chain, j: nat): Data {
    if j == 0 then [] else History(ch, j - 1)
  }

  lemma {:induction false} HistoryDown(ch: Chain, j: nat)
    ensures History(ch, j) == Part(ch, j) + Younger(ch, j)
  {
    if j == 0 {
      assert Past(ch, 0) == [];
      NothingMore(Live(ch));
    } else {
      HistoryNext(ch, j);
    }
  }

  lemma {:induction false} MovedParts(ch: Chain, j: nat, max: nat)
    requires j in ch
    ensures var r := Moved(ch, j, j + 1, max);
            && Part(r, j) == [] && Part(r, j + 1) == Tail(ch[j], max)
            && forall k: nat :: k != j && k != j + 1 ==> Part(r, k) == Part(ch, k)
  {
    forall k: nat
      ensures k != j && k != j + 1 ==> Part(Moved(ch, j, j + 1, max), k) == Part(ch, k)
    {
      MovedAt(ch, j, j + 1, max, k);
    }
  }

  lemma {:induction false} SameYounger(ch: Chain, r: Chain, j: nat)
    requires forall k :: 0 <= k < j ==> Part(r, k) == Part(ch, k)
    ensures Younger(r, j) == Younger(ch, j)
  {
    if j > 0 {
      SameHistory(ch, r, j - 1);
    }
  }

  /** A file cut to its tail and put in place of the next older one. */
  lemma {:induction false} MovedIsWithin(ch: Chain, j: nat, max: nat)
    requires j in ch
    ensures Within(History(Moved(ch, j, j + 1, max), j + 1), History(ch, j + 1))
  {
    var r := Moved(ch, j, j + 1, max);
    MovedParts(ch, j, max);
    SameYounger(ch, r, j);
    HistoryNext(r, j + 1);
    HistoryNext(ch, j + 1);
    HistoryDown(r, j);
    HistoryDown(ch, j);
    CutIsWithin(Part(ch, j + 1), ch[j], Younger(ch, j), max);
  }

  lemma {:induction false} CutIsWithin(older: Data, d: Data, younger: Data, max: nat)
    ensures Within(Tail(d, max) + ([] + younger), older + (d + younger))
  {
    NothingMore(younger);
    TailIsWithin(d, max);
    WithinItself(younger);
    WithinBoth(Tail(d, max), d, younger, younger);
    WithinMore(Tail(d, max) + younger, older, d + younger);
  }

  lemma {:induction false} OlderAreKept(ch: Chain, r: Chain, i: nat, n: nat)
    requires i <= n && forall k :: i < k <= n ==> Part(r, k) == Part(ch, k)
    requires Within(History(r, i), History(ch, i))
    ensures Within(History(r, n), History(ch, n))
    decreases n
  {
    if i < n {
      OlderAreKept(ch, r, i, n - 1);
      HistoryNext(ch, n);
      HistoryNext(r, n);
      WithinItself(Part(ch, n));
      WithinBoth(Part(r, n), Part(ch, n), History(r, n - 1), History(ch, n - 1));
    }
  }

  lemma {:induction false} StepIsWithin(ch: Chain, i: nat, n: nat, max: nat)
    requires i < n && i in ch
    ensures Within(History(Moved(ch, i, i + 1, max), n), History(ch, n))
  {
    MovedIsWithin(ch, i, max);
    MovedParts(ch, i, max);
    OlderAreKept(ch, Moved(ch, i, i + 1, max), i + 1, n);
  }

  /** However far a roll gets, it only takes bytes out. */
  lemma {:induction false} RollingIsWithin(ch: Chain, n: nat, max: nat, steps: nat)
    requires n >= 1 && steps <= n + 1
    ensures Within(History(Rolling(ch, n, max, steps), n), History(ch, n))
    decreases steps
  {
    if steps == 0 {
      WithinItself(History(ch, n));
    } else if steps == 1 {
      RollingNext(ch, n, max, 0);
      RemovedIsWithin(ch, n);
    } else {
      var before, i := Rolling(ch, n, max, steps - 1), n + 1 - steps;
      RollingNext(ch, n, max, i);
      RollingIsWithin(ch, n, max, steps - 1);
      if i in before {
        StepIsWithin(before, i, n, max);
        WithinIsTransitive(History(Moved(before, i, i + 1, max), n), History(before, n), History(ch, n));
      }
    }
  }

  /** The same of a write, whether it rolls or not. */
  lemma {:induction false} WriteIsWithin(ch: Chain, n: nat, max: nat, full: bool, w: Write)
    requires n >= 1
    ensures var r := if full then Rolling(ch, n, max, Min(w.steps, n + 1)) else ch;
            Within(History(Landed(r, w), n), History(ch, n) + Added(w))
  {
    var steps := if full then Min(w.steps, n + 1) else 0;
    var r := Rolling(ch, n, max, steps);
    RollingIsWithin(ch, n, max, steps);
    LandedHistory(r, n, w);
    WithinItself(Added(w));
    WithinBoth(History(r, n), History(ch, n), Added(w), Added(w));
  }

  lemma {:induction false} WithinNext(last: Data, next: Data, first: Data, d: Data, rest: Data)
    requires Within(next, first + d) && Within(last, next + rest)
    ensures Within(last, first + (d + rest))
  {
    WithinItself(rest);
    WithinBoth(next, first + d, rest, rest);
    Regroup(first, d, rest);
    WithinIsTransitive(last, next + rest, first + (d + rest));
  }

  /**
   Whatever records are written, whatever the files held and whatever fails: read oldest to newest, the files hold
   nothing but what was written, in the order in which it was.
   */
  lemma {:induction false} HistoryIsInOrder(ch: Chain, n: nat, max: nat, run: seq<Write>)
    requires n >= 1
    ensures Within(History(RunLooked(ch, n, max, run), n), History(ch, n) + Written(run))
    decreases |run|
  {
    if run == [] {
      NothingMore(History(ch, n));
      WithinItself(History(ch, n));
    } else {
      var next := Looked(ch, n, max, run[0]);
      WriteIsWithin(ch, n, max, Full(SizeSeen(ch, run[0].look), run[0].data, max), run[0]);
      HistoryIsInOrder(next, n, max, run[1..]);
      WithinNext(History(RunLooked(next, n, max, run[1..]), n), History(next, n), History(ch, n),
                 Added(run[0]), Written(run[1..]));
    }
  }

  /** The same for the writer with the cached counter, whatever the counter says. */
  lemma {:induction false} CachedHistoryIsInOrder(k: Counter, ch: Chain, n: nat, max: nat, run: seq<Write>)
    requires n >= 1
    ensures Within(History(RunCached(k, ch, n, max, run), n), History(ch, n) + Written(run))
    decreases |run|
  {
    if run == [] {
      NothingMore(History(ch, n));
      WithinItself(History(ch, n));
    } else {
      var (k', next) := Cached(k, ch, n, max, run[0]);
      WriteIsWithin(ch, n, max, Full(Refreshed(k, ch, run[0].now, run[0].look).size, run[0].data, max), run[0]);
      CachedHistoryIsInOrder(k', next, n, max, run[1..]);
      WithinNext(History(RunCached(k', next, n, max, run[1..]), n), History(next, n), History(ch, n),
                 Added(run[0]), Written(run[1..]));
    }
  }

  // ---- other appenders -----------------------------------------------------------------------------------

  datatype Event = Ours(write: Write) | Foreign(data: Data)

  /** The writer, the files, and the bytes of the live file that the counter does not count. */
  datatype State = State(counter: Counter, chain: Chain, unseen: nat)

  function Step(s: State, n: nat, max: nat, e: Event): State
    requires n >= 1
  {
    match e
    case Foreign(d) => s.(chain := Appended(s.chain, d), unseen := s.unseen + |d|)
    case Ours(w) =>
      var (counter, chain) := Cached(s.counter, s.chain, n, max, w);
      var refreshed := Refreshed(s.counter, s.chain, w.now, w.look);
      var rolled := Full(refreshed.size, w.data, max) && w.steps > n && 0 in s.chain;
      State(counter, chain, if rolled then 0 else Uncounted(s, w))
  }

  /** What a look-up leaves uncounted: nothing, all of the file, or what was uncounted before it failed. */
  function Uncounted(s: State, w: Write): nat {
    if !Stale(s.counter, w.now) then s.unseen
    else if w.look.Sees? then 0
    else if w.look.Throws? && s.counter.ready then s.unseen
    else |Live(s.chain)|
  }

  function Run(s: State, n: nat, max: nat, es: seq<Event>): State
    requires n >= 1
    decreases |es|
  {
    if es == [] then s else Run(Step(s, n, max, es[0]), n, max, es[1..])
  }

  /** Each event acts where the run has come to. */
  lemma {:induction false} RunGoesOn(s: State, n: nat, max: nat, es: seq<Event>, e: Event)
    requires n >= 1
    ensures Run(s, n, max, es + [e]) == Step(Run(s, n, max, es), n, max, e)
    decreases |es|
  {
    if es == [] {
      assert es + [e] == [e] && [e][1..] == [];
    } else {
      assert (es + [e])[1..] == es[1..] + [e];
      RunGoesOn(Step(s, n, max, es[0]), n, max, es[1..], e);
    }
  }

  /** Other bytes go to the end of the live file behind the back of the counter; a record goes through it. */
  lemma {:induction false} StepsAre(s: State, n: nat, max: nat, d: Data, w: Write)
    requires n >= 1
    ensures var s' := Step(s, n, max, Foreign(d));
            && s'.chain == s.chain[0 := (if 0 in s.chain then s.chain[0] else []) + d]
            && s'.counter == s.counter && s'.unseen == s.unseen + |d|
    ensures var s' := Step(s, n, max, Ours(w));
            (s'.counter, s'.chain) == Cached(s.counter, s.chain, n, max, w)
  {
  }

  /** The first write, and one a second after a look-up, counts what others have added, if its own look-up succeeds. */
  lemma {:induction false} LookUpCountsAll(s: State, n: nat, max: nat, w: Write)
    requires n >= 1 && w.look.Sees? && (!s.counter.ready || w.now - s.counter.statAt >= 1000)
    ensures Step(s, n, max, Ours(w)).unseen == 0
  {
  }

  /** The live file is what the counter says and what it does not count; the generations are capped. */
  ghost predicate Tracked(s: State, n: nat, max: nat) {
    && (s.counter.ready ==> |Live(s.chain)| == s.counter.size + s.unseen)
    && GenerationsCapped(s.chain, n, max)
  }

  lemma {:induction false} StepIsTracked(s: State, n: nat, max: nat, e: Event)
    requires n >= 1
    requires Tracked(s, n, max)
    ensures Tracked(Step(s, n, max, e), n, max)
    ensures e.Ours? && e.write.steps > n ==>
              var s' := Step(s, n, max, e);
              var cap := if |e.write.data| > max then |e.write.data| else max;
              |Live(s'.chain)| <= cap + s'.unseen
  {
    if e.Ours? {
      var w := e.write;
      var steps := Min(w.steps, n + 1);
      RollingStaysCapped(s.chain, n, max, steps);
      if steps > 0 {
        RollingAt(s.chain, n, max, steps, 0);
      }
    }
  }

  /**
   Whatever others append, and whatever fails: every generation stays within the cap, and after a write of ours whose
   roll is not interrupted the live file passes max(cap, record) by no more than the bytes the counter does not count,
   which others have appended, or a failing look-up has missed, since it was last read or reset.
   */
  lemma {:induction false} ForeignBytesAreBounded(s: State, n: nat, max: nat, es: seq<Event>, last: Write)
    requires n >= 1
    requires Tracked(s, n, max)
    ensures Tracked(Run(s, n, max, es), n, max)
    ensures last.steps > n ==>
              var s' := Step(Run(s, n, max, es), n, max, Ours(last));
              var cap := if |last.data| > max then |last.data| else max;
              |Live(s'.chain)| <= cap + s'.unseen
    decreases |es|
  {
    if es == [] {
      StepIsTracked(s, n, max, Ours(last));
    } else {
      StepIsTracked(s, n, max, es[0]);
      ForeignBytesAreBounded(Step(s, n, max, es[0]), n, max, es[1..], last);
    }
  }
}
