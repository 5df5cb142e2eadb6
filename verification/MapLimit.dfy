/** A bounded map over asynchronous calls: workers share a cursor, and every interleaving is a run of these actions. */
module MapLimit {
  import opened Wrappers

  /** A worker between calls, waiting for the call of one item, or finished. */
  datatype Worker = Ready | Awaiting(item: nat) | Finished

  /** `Take`: a ready worker looks at the cursor. `Settle`: its call comes back, with a value or a failure. */
  datatype Action = Take(worker: nat) | Settle(worker: nat, failed: bool)

  datatype Pool<R> = Pool(n: nat, next: nat, workers: seq<Worker>, results: seq<Option<R>>,
                          called: seq<nat>, failed: bool)

  function Cap(limit: int, n: nat): (cap: nat)
    ensures 1 <= cap && (limit >= 1 ==> cap <= limit) && (n >= 1 ==> cap <= n)
    ensures limit >= 1 && n >= 1 ==> cap == limit || cap == n
  {
    var asked := if limit == 0 then 1 else limit;
    var least := if asked < (if n == 0 then 1 else n) then asked else if n == 0 then 1 else n;
    if least > 1 then least else 1
  }

  function Started<R>(n: nat, limit: int): Pool<R> {
    Pool(n, 0, seq(Cap(limit, n), _ => Ready), seq(n, _ => None), [], false)
  }

  predicate Enabled<R>(s: Pool<R>, a: Action) {
    a.worker < |s.workers| &&
    match a
    case Take(w) => s.workers[w].Ready?
    case Settle(w, _) => s.workers[w].Awaiting?
  }

  /** What the callback makes of an item. */
  type Fn<!R> = nat -> R

  function Next<R>(s: Pool<R>, a: Action, fn: Fn<R>): Pool<R>
    requires Enabled(s, a)
  {
    match a
    case Take(w) =>
      if s.next < s.n then
        s.(workers := s.workers[w := Awaiting(s.next)], next := s.next + 1, called := s.called + [s.next])
      else s.(workers := s.workers[w := Finished])
    case Settle(w, failed) =>
      var i := s.workers[w].item;
      if failed then s.(workers := s.workers[w := Finished], failed := true)
      else if i < |s.results| then
        s.(workers := s.workers[w := Ready], results := s.results[i := Some(fn(i))])
      else s
  }

  ghost predicate InFlight<R>(s: Pool<R>, i: nat) {
    exists w :: 0 <= w < |s.workers| && s.workers[w] == Awaiting(i)
  }

  /** Calls go out in item order, once each; a result is what the callback made of its item. */
  ghost predicate Sound<R>(s: Pool<R>, fn: Fn<R>) {
    && s.next <= s.n == |s.results|
    && |s.called| == s.next && (forall k :: 0 <= k < s.next ==> s.called[k] == k)
    && (forall i: nat :: InFlight(s, i) ==> i < s.next && s.results[i].None?)
    && (forall v, w :: 0 <= v < w < |s.workers| && s.workers[v].Awaiting? ==> s.workers[v] != s.workers[w])
    && (forall i :: 0 <= i < s.n && s.results[i].Some? ==> i < s.next && s.results[i] == Some(fn(i)))
    && (!s.failed ==> forall i :: 0 <= i < s.next ==> s.results[i].Some? || InFlight(s, i))
    && ((exists w :: 0 <= w < |s.workers| && s.workers[w] == Finished) ==> s.failed || s.next == s.n)
  }

  lemma {:induction false} StartIsSound<R>(n: nat, limit: int, fn: Fn<R>)
    ensures Sound(Started(n, limit), fn)
  {
  }

  lemma {:induction false} StepIsSound<R>(s: Pool<R>, a: Action, fn: Fn<R>)
    requires Sound(s, fn) && Enabled(s, a)
    ensures Sound(Next(s, a, fn), fn) && |Next(s, a, fn).workers| == |s.workers| && Next(s, a, fn).n == s.n
  {
    var s' := Next(s, a, fn);
    var w := a.worker;
    assert s.workers[w].Awaiting? ==> InFlight(s, s.workers[w].item);
    assert forall v :: 0 <= v < |s.workers| && v != w ==> s'.workers[v] == s.workers[v];
    forall i: nat | i < s.n && InFlight(s, i) && s.workers[w] != Awaiting(i)
      ensures InFlight(s', i)
    {
      var v :| 0 <= v < |s.workers| && s.workers[v] == Awaiting(i);
      assert s'.workers[v] == Awaiting(i);
    }
    forall i: nat | InFlight(s', i) && s'.workers[w] != Awaiting(i)
      ensures InFlight(s, i)
    {
      var v :| 0 <= v < |s'.workers| && s'.workers[v] == Awaiting(i);
      assert s.workers[v] == Awaiting(i);
    }
    if a.Take? && s.next < s.n {
      assert s'.workers[w] == Awaiting(s.next);
    }
  }

  function After<R>(s: Pool<R>, run: seq<Action>, fn: Fn<R>): Option<Pool<R>>
    decreases |run|
  {
    if run == [] then Some(s)
    else if Enabled(s, run[0]) then After(Next(s, run[0], fn), run[1..], fn)
    else None
  }

  lemma {:induction false} RunIsSound<R>(s: Pool<R>, run: seq<Action>, fn: Fn<R>)
    requires Sound(s, fn) && After(s, run, fn).Some?
    ensures var s' := After(s, run, fn).value;
            Sound(s', fn) && |s'.workers| == |s.workers| && s'.n == s.n
    decreases |run|
  {
    if run != [] {
      StepIsSound(s, run[0], fn);
      RunIsSound(Next(s, run[0], fn), run[1..], fn);
    }
  }

  /**
   In every interleaving: items are called in order, each at most once, by no more workers than the limit; and
   when every worker is finished and no call has failed, every result is in its item's place.
   */
  lemma {:induction false} EveryItemOnce<R>(n: nat, limit: int, run: seq<Action>, fn: Fn<R>)
    requires After(Started(n, limit), run, fn).Some?
    ensures var s := After(Started(n, limit), run, fn).value;
            && |s.workers| == Cap(limit, n) && |s.results| == n
            && (forall k :: 0 <= k < |s.called| ==> s.called[k] == k)
            && ((forall w :: 0 <= w < |s.workers| ==> s.workers[w] == Finished) && !s.failed ==>
                  |s.called| == n && forall i :: 0 <= i < n ==> s.results[i] == Some(fn(i)))
  {
    StartIsSound(n, limit, fn);
    RunIsSound(Started(n, limit), run, fn);
    var s := After(Started(n, limit), run, fn).value;
    if (forall w :: 0 <= w < |s.workers| ==> s.workers[w] == Finished) && !s.failed {
      assert s.workers[0] == Finished;
      assert forall i :: !InFlight(s, i);
    }
  }

  /** A run goes on with any action that is possible when it has come so far. */
  lemma {:induction false} RunsGoOn<R>(s: Pool<R>, run: seq<Action>, a: Action, fn: Fn<R>)
    requires After(s, run, fn).Some? && Enabled(After(s, run, fn).value, a)
    ensures After(s, run + [a], fn) == Some(Next(After(s, run, fn).value, a, fn))
    decreases |run|
  {
    if run == [] {
      assert run + [a] == [a] && [a][1..] == [];
    } else {
      assert (run + [a])[1..] == run[1..] + [a];
      RunsGoOn(Next(s, run[0], fn), run[1..], a, fn);
    }
  }

  /** The map has failed exactly when one of its calls has. */
  lemma {:induction false} FailsWithACall<R>(s: Pool<R>, run: seq<Action>, fn: Fn<R>)
    requires Sound(s, fn) && After(s, run, fn).Some?
    ensures After(s, run, fn).value.failed <==> s.failed || exists a :: a in run && a.Settle? && a.failed
    decreases |run|
  {
    if run != [] {
      StepIsSound(s, run[0], fn);
      if run[0].Settle? {
        assert InFlight(s, s.workers[run[0].worker].item);
      }
      FailsWithACall(Next(s, run[0], fn), run[1..], fn);
      assert run == [run[0]] + run[1..];
    }
  }

  /** A map with no failing call, once no action is possible, has every result in its item's place. */
  lemma {:induction false} CompleteUnlessACallFails<R>(n: nat, limit: int, run: seq<Action>, fn: Fn<R>)
    requires After(Started(n, limit), run, fn).Some?
    requires forall a :: a in run && a.Settle? ==> !a.failed
    requires forall a :: !Enabled(After(Started(n, limit), run, fn).value, a)
    ensures var s := After(Started(n, limit), run, fn).value;
            |s.called| == n && |s.results| == n && forall i :: 0 <= i < n ==> s.results[i] == Some(fn(i))
  {
    StartIsSound(n, limit, fn);
    FailsWithACall(Started(n, limit), run, fn);
    EveryRunEnds(n, limit, run, fn);
    EveryItemOnce(n, limit, run, fn);
  }

  // ---- progress ----------------------------------------------------------------------------------------

  /** A worker that has not finished can take an item, or its call can come back. */
  lemma {:induction false} NeverStuck<R>(s: Pool<R>, w: nat) returns (a: Action)
    requires w < |s.workers| && s.workers[w] != Finished
    ensures Enabled(s, a) && a.worker == w
  {
    a := if s.workers[w].Ready? then Take(w) else Settle(w, true);
  }

  function Load(w: Worker): nat {
    match w
    case Finished => 0
    case Ready => 1
    case Awaiting(_) => 2
  }

  function Loads(ws: seq<Worker>): nat {
    if ws == [] then 0 else Loads(ws[..|ws| - 1]) + Load(ws[|ws| - 1])
  }

  lemma {:induction false} LoadsChange(ws: seq<Worker>, w: nat, worker: Worker)
    requires w < |ws|
    ensures Loads(ws[w := worker]) + Load(ws[w]) == Loads(ws) + Load(worker)
    decreases |ws|
  {
    var front, ws' := ws[..|ws| - 1], ws[w := worker];
    if w < |ws| - 1 {
      LoadsChange(front, w, worker);
      assert ws'[..|ws| - 1] == front[w := worker];
    } else {
      assert ws'[..|ws| - 1] == front;
    }
  }

  lemma {:induction false} LoadsAtStart(k: nat)
    ensures Loads(seq(k, _ => Ready)) == k
  {
    if k > 0 {
      LoadsAtStart(k - 1);
      assert seq(k, _ => Ready)[..k - 1] == seq(k - 1, _ => Ready);
    }
  }

  /** What is still to be done: two steps for an item, and one for a worker to finish. */
  function Remaining<R>(s: Pool<R>): nat
    requires s.next <= s.n
  {
    2 * (s.n - s.next) + Loads(s.workers)
  }

  lemma {:induction false} StepsRunOut<R>(s: Pool<R>, a: Action, fn: Fn<R>)
    requires Sound(s, fn) && Enabled(s, a)
    ensures Sound(Next(s, a, fn), fn) && Remaining(Next(s, a, fn)) < Remaining(s)
  {
    StepIsSound(s, a, fn);
    var w := a.worker;
    assert s.workers[w].Awaiting? ==> InFlight(s, s.workers[w].item);
    LoadsChange(s.workers, w, Next(s, a, fn).workers[w]);
  }

  lemma {:induction false} RunsRunOut<R>(s: Pool<R>, run: seq<Action>, fn: Fn<R>)
    requires Sound(s, fn) && After(s, run, fn).Some?
    ensures var s' := After(s, run, fn).value;
            Sound(s', fn) && |run| + Remaining(s') <= Remaining(s)
    decreases |run|
  {
    if run != [] {
      StepsRunOut(s, run[0], fn);
      RunsRunOut(Next(s, run[0], fn), run[1..], fn);
    }
  }

  /**
   No interleaving goes on for more than two steps an item and one a worker, and none stops before every worker is
   finished.
   */
  lemma {:induction false} EveryRunEnds<R>(n: nat, limit: int, run: seq<Action>, fn: Fn<R>)
    requires After(Started(n, limit), run, fn).Some?
    ensures |run| <= 2 * n + Cap(limit, n)
    ensures var s: Pool<R> := After(Started(n, limit), run, fn).value;
            (forall a :: !Enabled(s, a)) <==> forall w :: 0 <= w < |s.workers| ==> s.workers[w] == Finished
  {
    StartIsSound(n, limit, fn);
    RunsRunOut(Started(n, limit), run, fn);
    LoadsAtStart(Cap(limit, n));
    var s := After(Started(n, limit), run, fn).value;
    if forall a :: !Enabled(s, a) {
      forall w | 0 <= w < |s.workers|
        ensures s.workers[w] == Finished
      {
        if s.workers[w] != Finished {
          var a := NeverStuck(s, w);
          assert false;
        }
      }
    }
  }
}
