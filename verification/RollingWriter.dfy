/**
 The two writers of a rolling log. One keeps a byte counter that it re-reads from disk at most once a second;
 the other looks the size up before every append. What goes wrong in a write is part of it: a look-up of the size may
 fail, a roll under way may stop after any number of its steps, and the append may fail and leave nothing.
 */
module RollingWriter {
  import opened LogChain

  const RESTAT_MS := 1000

  // ---- what one write does -----------------------------------------------------------------------------

  /** The counter a writer keeps. */
  datatype Counter = Counter(size: nat, ready: bool, statAt: int)

  const FRESH := Counter(0, false, 0)

  /** A look-up of the live file's size succeeds, takes the file for missing, or throws. */
  datatype Look = Sees | Misses | Throws

  /** One write: record and time, how a look-up of the size ends, how far a roll gets and if the append succeeds. */
  datatype Write = Write(data: Data, now: int, look: Look, steps: nat, lands: bool)

  predicate Stale(w: Counter, now: int) {
    !w.ready || now - w.statAt >= RESTAT_MS
  }

  function Refreshed(k: Counter, ch: Chain, now: int, look: Look): Counter {
    if !Stale(k, now) then k
    else Counter(if look.Sees? then |Live(ch)| else if look.Throws? && k.ready then k.size else 0, true, now)
  }

  function Appended(ch: Chain, d: Data): Chain {
    ch[0 := Live(ch) + d]
  }

  function Landed(ch: Chain, w: Write): Chain {
    if w.lands then Appended(ch, w.data) else ch
  }

  predicate Full(size: nat, d: Data, max: nat) {
    size > 0 && size + |d| > max
  }

  /** One write through the counter. */
  function Cached(k: Counter, ch: Chain, n: nat, max: nat, w: Write): (Counter, Chain)
    requires n >= 1
  {
    var r := Refreshed(k, ch, w.now, w.look);
    var full := Full(r.size, w.data, max);
    var size := if full && w.steps > n && 0 in ch then 0 else r.size;
    (r.(size := if w.lands then size + |w.data| else size),
     Landed(if full then Rolling(ch, n, max, Min(w.steps, n + 1)) else ch, w))
  }

  /** What a look-up of the size makes of it when a failure counts as a missing file. */
  function SizeSeen(ch: Chain, look: Look): nat {
    if look.Sees? then |Live(ch)| else 0
  }

  /** One write that looks the size up. */
  function Looked(ch: Chain, n: nat, max: nat, w: Write): Chain
    requires n >= 1
  {
    Landed(if Full(SizeSeen(ch, w.look), w.data, max) then Rolling(ch, n, max, Min(w.steps, n + 1)) else ch, w)
  }

  /** A record that fits only grows the live file, whatever the look-up says: nothing is rolled. */
  lemma {:induction false} FittingRecordGrows(ch: Chain, n: nat, max: nat, w: Write)
    requires n >= 1 && (if 0 in ch then |ch[0]| else 0) + |w.data| <= max
    ensures Looked(ch, n, max, w) == if w.lands then ch[0 := (if 0 in ch then ch[0] else []) + w.data] else ch
  {
  }

  /** One that does not fit behind what is there rolls: the live file holds it alone, what was live is generation 1. */
  lemma {:induction false} OverflowingRecordRolls(ch: Chain, n: nat, max: nat, w: Write, i: nat)
    requires n >= 1 && w.look.Sees? && w.steps > n && w.lands
    requires 0 in ch && ch[0] != [] && |ch[0]| + |w.data| > max
    ensures var after := Looked(ch, n, max, w);
            && 0 in after && after[0] == w.data
            && 1 in after && after[1] == Tail(ch[0], max)
            && (2 <= i <= n ==> (i in after <==> i - 1 in ch) && (i - 1 in ch ==> after[i] == Tail(ch[i - 1], max)))
  {
    RolledAt(ch, n, max, 0);
    RolledAt(ch, n, max, 1);
    RolledAt(ch, n, max, i);
  }

  /** A counter that was never read, or a second ago, is read again; another is relied on. */
  lemma {:induction false} CounterIsReadEverySecond(k: Counter, ch: Chain, n: nat, max: nat, w: Write)
    requires n >= 1 && w.look.Sees?
    ensures !k.ready || w.now - k.statAt >= 1000 ==> Cached(k, ch, n, max, w).1 == Looked(ch, n, max, w)
    ensures !k.ready || w.now - k.statAt >= 1000 ==> Cached(k, ch, n, max, w).0.statAt == w.now
    ensures k.ready && w.now - k.statAt < 1000 && k.size + |w.data| <= max ==>
              && Cached(k, ch, n, max, w).1 == (if w.lands then Appended(ch, w.data) else ch)
              && Cached(k, ch, n, max, w).0 == Counter(k.size + if w.lands then |w.data| else 0, true, k.statAt)
    ensures k.ready && w.now - k.statAt < 1000 && k.size > 0 && k.size + |w.data| > max && w.steps > n && w.lands ==>
              Cached(k, ch, n, max, w).1 == Appended(Rolled(ch, n, max), w.data)
  {
  }

  function Min(a: nat, b: nat): nat {
    if a <= b then a else b
  }

  // ---- the files ---------------------------------------------------------------------------------------

  class LogFiles {
    const n: nat
    const max: nat
    var chain: Chain

    constructor (n: nat, max: nat, chain: Chain)
      requires n >= 1
      ensures this.n == n && this.max == max && this.chain == chain
    {
      this.n, this.max, this.chain := n, max, chain;
    }

    /** Write the last `max` bytes of one file to another, from a line boundary. */
    method CopyTail(from: nat, to: nat)
      requires from in chain
      modifies this
      ensures chain == old(chain)[to := Tail(old(chain)[from], max)]
    {
      var d := chain[from];
      var take := if |d| < max then |d| else max;
      var buf := d[|d| - take..];
      var nl := if take < |d| then FirstNewline(buf) else |buf|;
      chain := chain[to := if nl < |buf| then buf[nl + 1..] else buf];
      assert take == |d| ==> buf == d;
    }

    method MoveCapped(from: nat, to: nat)
      requires from in chain && from != to
      modifies this
      ensures chain == Moved(old(chain), from, to, max)
    {
      if |chain[from]| > max {
        CopyTail(from, to);
        chain := chain - {from};
      } else {
        chain := (chain - {from})[to := chain[from]];
      }
    }

    method DropOldest()
      modifies this
      ensures chain == old(chain) - {n}
    {
      if n in chain {
        chain := chain - {n};
      }
    }

    /** Roll the chain; the operation after the first `steps` throws. */
    method RollChain(steps: nat) returns (ok: bool)
      requires n >= 1
      modifies this
      ensures chain == Rolling(old(chain), n, max, Min(steps, n + 1))
      ensures ok <==> steps > n && 0 in old(chain)
    {
      if steps == 0 {
        return false;
      }
      ghost var start := chain;
      DropOldest();
      RollingNext(start, n, max, n - 1);
      ok := ShiftUp(start, steps);
      if ok {
        ok := MoveLive(start, steps);
      }
    }

    /** Move generations n - 1 down to 1 one place on. */
    method ShiftUp(ghost start: Chain, steps: nat) returns (ok: bool)
      requires n >= 1 && steps >= 1
      requires chain == Rolling(start, n, max, 1)
      modifies this
      ensures ok <==> steps >= n
      ensures chain == Rolling(start, n, max, Min(steps, n))
    {
      var i := n - 1;
      while i >= 1
        invariant 0 <= i < n
        invariant n - i <= steps
        invariant chain == Rolling(start, n, max, n - i)
      {
        if steps == n - i {
          return false;
        }
        MoveIfThere(start, i);
        i := i - 1;
      }
      return true;
    }

    method MoveIfThere(ghost start: Chain, i: nat)
      requires 1 <= i < n
      requires chain == Rolling(start, n, max, n - i)
      modifies this
      ensures chain == Rolling(start, n, max, n - i + 1)
    {
      RollingNext(start, n, max, i);
      if i in chain {
        MoveCapped(i, i + 1);
      }
    }

    method MoveLive(ghost start: Chain, steps: nat) returns (ok: bool)
      requires n >= 1 && steps >= n
      requires chain == Rolling(start, n, max, n)
      modifies this
      ensures chain == Rolling(start, n, max, Min(steps, n + 1))
      ensures ok <==> steps > n && 0 in start
    {
      if steps == n {
        return false;
      }
      LiveIsLast(start, n, max);
      RollingNext(start, n, max, 0);
      if 0 !in chain {
        return false;
      }
      MoveCapped(0, 1);
      return true;
    }

    /** Append one record, rolling first when it would pass the cap: the size is looked up every time. */
    method AppendRolling(w: Write)
      requires n >= 1
      modifies this
      ensures chain == Looked(old(chain), n, max, w)
      ensures (if 0 in old(chain) then |old(chain)[0]| else 0) + |w.data| <= max && w.lands ==>
                chain == old(chain)[0 := (if 0 in old(chain) then old(chain)[0] else []) + w.data]
    {
      var size := 0;
      if w.look.Sees? && 0 in chain {
        size := |chain[0]|;
      }
      if size > 0 && size + |w.data| > max {
        var rolled := RollChain(w.steps);
      }
      Append(w);
    }

    /** Append a record to the live file, which is made if there is none. */
    method Append(w: Write)
      modifies this
      ensures chain == Landed(old(chain), w)
    {
      if w.lands {
        chain := chain[0 := (if 0 in chain then chain[0] else []) + w.data];
      }
    }
  }

  /** The writer with the cached counter. */
  class RollingFileWriter {
    const files: LogFiles
    var size: nat
    var ready: bool
    var statAt: int

    function Counted(): Counter
      reads this
    {
      Counter(size, ready, statAt)
    }

    constructor (files: LogFiles)
      ensures this.files == files && Counted() == FRESH
    {
      this.files, this.size, this.ready, this.statAt := files, 0, false, 0;
    }

    method EnsureReady(now: int, look: Look)
      modifies this
      ensures Counted() == Refreshed(old(Counted()), files.chain, now, look)
    {
      if ready && now - statAt < RESTAT_MS {
        return;
      }
      if look.Throws? {
        if !ready {
          size := 0;
        }
      } else {
        size := if look.Sees? && 0 in files.chain then |files.chain[0]| else 0;
      }
      ready, statAt := true, now;
    }

    method WriteNow(w: Write)
      requires files.n >= 1
      modifies this, files
      ensures (Counted(), files.chain) == Cached(old(Counted()), old(files.chain), files.n, files.max, w)
      ensures old(ready) && w.now - old(statAt) < 1000 && old(size) + |w.data| <= files.max && w.lands ==>
                && size == old(size) + |w.data|
                && var was := old(files.chain);
                   files.chain == was[0 := (if 0 in was then was[0] else []) + w.data]
    {
      EnsureReady(w.now, w.look);
      if size > 0 && size + |w.data| > files.max {
        var rolled := files.RollChain(w.steps);
        if rolled {
          size := 0;
        }
      }
      files.Append(w);
      if w.lands {
        size := size + |w.data|;
      }
    }
  }

  // ---- the cache refines the look-up -------------------------------------------------------------------

  function RunCached(k: Counter, ch: Chain, n: nat, max: nat, run: seq<Write>): Chain
    requires n >= 1
    decreases |run|
  {
    if run == [] then ch
    else
      var (k', ch') := Cached(k, ch, n, max, run[0]);
      RunCached(k', ch', n, max, run[1..])
  }

  function RunLooked(ch: Chain, n: nat, max: nat, run: seq<Write>): Chain
    requires n >= 1
    decreases |run|
  {
    if run == [] then ch else RunLooked(Looked(ch, n, max, run[0]), n, max, run[1..])
  }

  /** With one writer, the counter is the size of the live file. */
  ghost predicate Accurate(k: Counter, ch: Chain) {
    k.ready ==> k.size == |Live(ch)|
  }

  lemma {:induction false} WritesAgree(k: Counter, ch: Chain, n: nat, max: nat, w: Write)
    requires n >= 1
    requires Accurate(k, ch) && w.look.Sees?
    ensures var (k', ch') := Cached(k, ch, n, max, w);
            ch' == Looked(ch, n, max, w) && k'.ready && Accurate(k', ch')
  {
    var s := Min(w.steps, n + 1);
    if s > 0 {
      RollingAt(ch, n, max, s, 0);
    }
  }

  /**
   Over every run of records, clock readings, interrupted rolls and failing appends, both writers leave the same
   files, if their look-ups succeed.
   */
  lemma {:induction false} CachedRefinesLooked(k: Counter, ch: Chain, n: nat, max: nat, run: seq<Write>)
    requires n >= 1
    requires Accurate(k, ch) && forall w :: w in run ==> w.look.Sees?
    ensures RunCached(k, ch, n, max, run) == RunLooked(ch, n, max, run)
    decreases |run|
  {
    if run != [] {
      WritesAgree(k, ch, n, max, run[0]);
      var (k', ch') := Cached(k, ch, n, max, run[0]);
      CachedRefinesLooked(k', ch', n, max, run[1..]);
    }
  }

  /** The counter outlives a failing look-up: it is not due, or the look-up throws. */
  predicate Relies(k: Counter, w: Write) {
    k.ready && (!Stale(k, w.now) || w.look.Throws?)
  }

  /**
   A failing look-up parts the two: a writer that relies on its counter rolls a full file, the other does not. They
   agree exactly when it does not rely on it, the file is not full or the roll does nothing.
   */
  lemma {:induction false} FailedLookUpParts(k: Counter, ch: Chain, n: nat, max: nat, w: Write)
    requires n >= 1
    requires Accurate(k, ch) && !w.look.Sees?
    ensures Cached(k, ch, n, max, w).1 == Looked(ch, n, max, w) <==>
            || !Relies(k, w)
            || !Full(|Live(ch)|, w.data, max)
            || Rolling(ch, n, max, Min(w.steps, n + 1)) == ch
  {
    var s := Min(w.steps, n + 1);
    if Relies(k, w) && Full(|Live(ch)|, w.data, max) && s > 0 {
      var r := Rolling(ch, n, max, s);
      RollingAt(ch, n, max, s, 0);
      RollingAt(ch, n, max, s, n);
      if Landed(r, w) == Landed(ch, w) {
        SameButLive(ch, r, w);
      }
    }
  }

  /** What is appended to tells two chains apart no less than the chains themselves. */
  lemma {:induction false} SameButLive(ch: Chain, r: Chain, w: Write)
    requires Landed(r, w) == Landed(ch, w) && 0 in ch && Live(ch) != []
    requires 0 in r ==> r[0] == ch[0]
    ensures r == ch
  {
    var r', ch' := Landed(r, w), Landed(ch, w);
    assert w.lands ==> |r'[0]| == |Live(r)| + |w.data| && |ch'[0]| == |Live(ch)| + |w.data|;
    forall i: nat
      ensures i in r <==> i in ch
      ensures i in r ==> r[i] == ch[i]
    {
      assert i in r' <==> i in ch';
      assert i in r' ==> r'[i] == ch'[i];
    }
    assert r.Keys == ch.Keys;
  }
}
