/**
 The table of retries that wait for the network: at most one waiter a key, a probe loop that is armed while any
 waits, and passes that look hosts up slowly while more registrations arrive.
 */
module Reconnect {
  import opened Wrappers

  type Key = string
  type Host = string

  const MAX_WAIT_MS := 20 * 60_000
  const FALLBACK_HOST: Host := "github.com"

  /** `id` numbers the registrations. */
  datatype Waiter = Waiter(host: Host, queuedAt: int, id: nat)

  datatype Entry = Entry(key: Key, waiter: Waiter)

  /** The table in insertion order, whether the interval timer runs, and what became of past registrations. */
  datatype Table = Table(waiters: seq<Entry>, armed: bool, next: nat, ran: seq<nat>, replaced: set<nat>)

  const EMPTY := Table([], false, 0, [], {})

  /** What a waiter's callback does when it is run: it may register a key, for some host or none in particular. */
  type Callback = Entry -> Option<(Key, Option<Host>)>

  function At(ws: seq<Entry>, key: Key): (i: nat)
    ensures i <= |ws|
    ensures i < |ws| ==> ws[i].key == key
    ensures forall j :: 0 <= j < i ==> ws[j].key != key
  {
    if ws == [] || ws[0].key == key then 0 else 1 + At(ws[1..], key)
  }

  /** `Map.set`: a key that is present keeps its place. */
  function Put(ws: seq<Entry>, key: Key, w: Waiter): seq<Entry> {
    var i := At(ws, key);
    if i < |ws| then ws[i := Entry(key, w)] else ws + [Entry(key, w)]
  }

  /** `Map.delete`. */
  function Without(ws: seq<Entry>, key: Key): seq<Entry> {
    var i := At(ws, key);
    if i < |ws| then ws[..i] + ws[i + 1..] else ws
  }

  function Registered(t: Table, key: Key, host: Option<Host>, now: int): Table {
    var i := At(t.waiters, key);
    var name := if host.Some? && host.value != "" then host.value else FALLBACK_HOST;
    Table(Put(t.waiters, key, Waiter(name, now, t.next)), true, t.next + 1, t.ran,
          if i < |t.waiters| then t.replaced + {t.waiters[i].waiter.id} else t.replaced)
  }

  predicate Expired(w: Waiter, now: int) {
    now - w.queuedAt >= MAX_WAIT_MS
  }

  predicate Due(w: Waiter, online: set<Host>, now: int) {
    w.host in online || Expired(w, now)
  }

  /** Take one waiter off the table and run it. */
  function Fired(t: Table, e: Entry, now: int, callback: Callback): Table {
    var taken := t.(waiters := Without(t.waiters, e.key), ran := t.ran + [e.waiter.id]);
    match callback(e)
    case None => taken
    case Some((key, host)) => Registered(taken, key, host, now)
  }

  /** Go through a snapshot of the table, from its `i`-th entry on. */
  function Swept(t: Table, snapshot: seq<Entry>, i: nat, online: set<Host>, now: int, callback: Callback): Table
    decreases |snapshot| - i
  {
    if i >= |snapshot| then t
    else
      Swept(if Due(snapshot[i].waiter, online, now) then Fired(t, snapshot[i], now, callback) else t,
            snapshot, i + 1, online, now, callback)
  }

  function Stopped(t: Table): Table {
    if t.waiters == [] then t.(armed := false) else t
  }

  /** The end of a probe pass: everything due is run, and the timer stops if nothing is left. */
  function Passed(t: Table, online: set<Host>, now: int, callback: Callback): Table {
    Stopped(Swept(t, t.waiters, 0, online, now, callback))
  }

  // ---- the program -------------------------------------------------------------------------------------

  class Waiters {
    var waiters: seq<Entry>
    var timer: bool
    var next: nat
    ghost var ran: seq<nat>
    ghost var replaced: set<nat>

    ghost function State(): Table
      reads this
    {
      Table(waiters, timer, next, ran, replaced)
    }

    constructor ()
      ensures State() == EMPTY
      ensures waiters == [] && !timer && next == 0 && ran == [] && replaced == {}
    {
      waiters, timer, next, ran, replaced := [], false, 0, [], {};
    }

    method Stop()
      modifies this
      ensures State() == old(State()).(armed := false)
    {
      if timer {
        timer := false;
      }
    }

    method WhenOnline(key: Key, host: Option<Host>, now: int)
      modifies this
      ensures State() == Registered(old(State()), key, host, now)
    {
      var first := |waiters| == 0;
      var name := if host.Some? && host.value != "" then host.value else FALLBACK_HOST;
      var i := At(waiters, key);
      if i < |waiters| {
        replaced := replaced + {waiters[i].waiter.id};
      }
      waiters := Put(waiters, key, Waiter(name, now, next));
      next := next + 1;
      if first || !timer {
        Stop();
        timer := true;
      }
    }

    /** A pass begins: nothing waiting stops the timer; otherwise each waiting host is to be looked up. */
    method ProbeStart() returns (hosts: set<Host>)
      modifies this
      ensures State() == Stopped(old(State()))
      ensures waiters == old(waiters) && timer == (old(timer) && old(waiters) != [])
      ensures hosts == HostsOf(waiters)
    {
      if |waiters| == 0 {
        Stop();
      }
      hosts := {};
      var i := 0;
      while i < |waiters|
        invariant i <= |waiters|
        invariant State() == Stopped(old(State()))
        invariant hosts == HostsOf(waiters[..i])
      {
        assert waiters[..i + 1] == waiters[..i] + [waiters[i]];
        hosts := hosts + {waiters[i].waiter.host};
        i := i + 1;
      }
      assert waiters[..i] == waiters;
    }

    /** A pass ends, when the last look-up has come back. */
    method ProbeEnd(online: set<Host>, now: int, callback: Callback)
      modifies this
      ensures State() == Passed(old(State()), online, now, callback)
      ensures waiters == [] ==> !timer
    {
      var snapshot := waiters;
      var i := 0;
      while i < |snapshot|
        invariant i <= |snapshot|
        invariant Swept(State(), snapshot, i, online, now, callback)
               == Swept(old(State()), snapshot, 0, online, now, callback)
      {
        var key, w := snapshot[i].key, snapshot[i].waiter;
        if w.host in online || now - w.queuedAt >= MAX_WAIT_MS {
          waiters := Without(waiters, key);
          ran := ran + [w.id];
          var again := callback(snapshot[i]);
          if again.Some? {
            WhenOnline(again.value.0, again.value.1, now);
          }
        }
        i := i + 1;
      }
      if |waiters| == 0 {
        Stop();
      }
    }
  }

  function HostsOf(ws: seq<Entry>): set<Host> {
    set e | e in ws :: e.waiter.host
  }

  // ---- what every state keeps --------------------------------------------------------------------------

  predicate Waits(ws: seq<Entry>, id: nat) {
    exists i :: 0 <= i < |ws| && ws[i].waiter.id == id
  }

  ghost predicate Distinct(ws: seq<Entry>) {
    forall i, j :: 0 <= i < j < |ws| ==> ws[i].key != ws[j].key && ws[i].waiter.id != ws[j].waiter.id
  }

  ghost predicate Once(ids: seq<nat>) {
    forall i, j :: 0 <= i < j < |ids| ==> ids[i] != ids[j]
  }

  /**
   Waiters imply a running timer, and every registration so far is exactly one of: waiting, run (once), or
   replaced before it ran.
   */
  ghost predicate Sound(t: Table) {
    && (t.waiters != [] ==> t.armed)
    && Distinct(t.waiters)
    && Once(t.ran)
    && (forall id: nat :: id < t.next <==> Waits(t.waiters, id) || id in t.ran || id in t.replaced)
    && (forall id :: id in t.ran ==> id !in t.replaced && !Waits(t.waiters, id))
    && (forall id :: id in t.replaced ==> !Waits(t.waiters, id))
  }

  lemma {:induction false} PutWaits(ws: seq<Entry>, key: Key, w: Waiter, id: nat)
    requires Distinct(ws) && !Waits(ws, w.id)
    ensures Distinct(Put(ws, key, w))
    ensures Waits(Put(ws, key, w), id) <==>
            id == w.id || (Waits(ws, id) && !(At(ws, key) < |ws| && ws[At(ws, key)].waiter.id == id))
  {
    var i, ws' := At(ws, key), Put(ws, key, w);
    forall j | 0 <= j < |ws| && j != i
      ensures ws'[j] == ws[j]
    {
    }
    assert ws'[i] == Entry(key, w);
    if Waits(ws, id) && !(i < |ws| && ws[i].waiter.id == id) {
      var j :| 0 <= j < |ws| && ws[j].waiter.id == id;
      assert ws'[j].waiter.id == id;
    }
    if Waits(ws', id) && id != w.id {
      var j :| 0 <= j < |ws'| && ws'[j].waiter.id == id;
      assert ws[j].waiter.id == id;
    }
  }

  lemma {:induction false} RegisteringIsSound(t: Table, key: Key, host: Option<Host>, now: int)
    requires Sound(t)
    ensures Sound(Registered(t, key, host, now))
  {
    var i, t' := At(t.waiters, key), Registered(t, key, host, now);
    var w := t'.waiters[i].waiter;
    assert w.id == t.next && !Waits(t.waiters, t.next);
    forall id: nat
      ensures Waits(t'.waiters, id) <==>
              id == w.id || (Waits(t.waiters, id) && !(i < |t.waiters| && t.waiters[i].waiter.id == id))
    {
      PutWaits(t.waiters, key, w, id);
    }
    PutWaits(t.waiters, key, w, 0);
    if i < |t.waiters| {
      assert Waits(t.waiters, t.waiters[i].waiter.id);
    }
  }

  lemma {:induction false} AtIs(ws: seq<Entry>, i: nat)
    requires Distinct(ws) && i < |ws|
    ensures At(ws, ws[i].key) == i
  {
  }

  lemma {:induction false} WithoutWaits(ws: seq<Entry>, i: nat, id: nat)
    requires Distinct(ws) && i < |ws|
    ensures Distinct(Without(ws, ws[i].key))
    ensures Waits(Without(ws, ws[i].key), id) <==> Waits(ws, id) && id != ws[i].waiter.id
  {
    AtIs(ws, i);
    var ws' := Without(ws, ws[i].key);
    assert forall j :: 0 <= j < i ==> ws'[j] == ws[j];
    assert forall j :: i <= j < |ws'| ==> ws'[j] == ws[j + 1];
    if Waits(ws, id) && id != ws[i].waiter.id {
      var j :| 0 <= j < |ws| && ws[j].waiter.id == id;
      assert ws'[if j < i then j else j - 1].waiter.id == id;
    }
  }

  /** One table follows another: nothing that has happened to a registration is undone. */
  ghost predicate Follows(t: Table, t': Table) {
    t.next <= t'.next && t.replaced <= t'.replaced && t.ran <= t'.ran
  }

  lemma {:induction false} TakingIsSound(t: Table, i: nat)
    requires Sound(t) && i < |t.waiters|
    ensures var e := t.waiters[i];
            Sound(t.(waiters := Without(t.waiters, e.key), ran := t.ran + [e.waiter.id]))
  {
    var e := t.waiters[i];
    var t' := t.(waiters := Without(t.waiters, e.key), ran := t.ran + [e.waiter.id]);
    assert Waits(t.waiters, e.waiter.id);
    WithoutWaits(t.waiters, i, 0);
    forall id: nat
      ensures Waits(t'.waiters, id) <==> Waits(t.waiters, id) && id != e.waiter.id
    {
      WithoutWaits(t.waiters, i, id);
    }
  }

  lemma {:induction false} FiringIsSound(t: Table, i: nat, now: int, callback: Callback)
    requires Sound(t) && i < |t.waiters|
    ensures var t' := Fired(t, t.waiters[i], now, callback);
            && Sound(t') && Follows(t, t')
            && t'.ran == t.ran + [t.waiters[i].waiter.id]
  {
    var e := t.waiters[i];
    var taken := t.(waiters := Without(t.waiters, e.key), ran := t.ran + [e.waiter.id]);
    TakingIsSound(t, i);
    if callback(e).Some? {
      RegisteringIsSound(taken, callback(e).value.0, callback(e).value.1, now);
    }
  }

  lemma {:induction false} Found(ws: seq<Entry>, e: Entry) returns (i: nat)
    requires e in ws
    ensures i < |ws| && ws[i] == e
  {
    i :| 0 <= i < |ws| && ws[i] == e;
  }

  // ---- callbacks that register other keys --------------------------------------------------------------

  /** Running `e` registers this key. */
  predicate Registers(callback: Callback, e: Entry, key: Key) {
    callback(e).Some? && callback(e).value.0 == key
  }

  /** Of two due entries of a snapshot, the earlier one's callback registers the later one's key. */
  ghost predicate Clash(snapshot: seq<Entry>, online: set<Host>, now: int, callback: Callback) {
    exists i, j :: 0 <= i < j < |snapshot|
      && Due(snapshot[i].waiter, online, now) && Due(snapshot[j].waiter, online, now)
      && Registers(callback, snapshot[i], snapshot[j].key)
  }

  ghost predicate OwnKeys(callback: Callback) {
    forall e: Entry, key :: Registers(callback, e, key) ==> key == e.key
  }

  lemma {:induction false} OwnKeysNeverClash(snapshot: seq<Entry>, online: set<Host>, now: int, callback: Callback)
    requires Distinct(snapshot) && OwnKeys(callback)
    ensures !Clash(snapshot, online, now, callback)
  {
  }

  /** An entry is as it was, or has been replaced. */
  ghost predicate KeptOrReplaced(t: Table, e: Entry) {
    e in t.waiters || e.waiter.id in t.replaced
  }

  ghost predicate DistinctKeys(ws: seq<Entry>) {
    forall i, j :: 0 <= i < j < |ws| ==> ws[i].key != ws[j].key
  }

  lemma {:induction false} WithoutKeeps(ws: seq<Entry>, key: Key, e: Entry)
    requires DistinctKeys(ws)
    ensures DistinctKeys(Without(ws, key))
    ensures e in ws && e.key != key ==> e in Without(ws, key)
  {
    var i, ws' := At(ws, key), Without(ws, key);
    if i < |ws| {
      assert forall j :: 0 <= j < i ==> ws'[j] == ws[j];
      assert forall j :: i <= j < |ws'| ==> ws'[j] == ws[j + 1];
      if e in ws && e.key != key {
        var k := Found(ws, e);
        assert ws'[if k < i then k else k - 1] == e;
      }
    }
  }

  lemma {:induction false} PutKeeps(ws: seq<Entry>, key: Key, w: Waiter, e: Entry)
    requires DistinctKeys(ws)
    ensures DistinctKeys(Put(ws, key, w))
    ensures e in ws && e.key != key ==> e in Put(ws, key, w)
    ensures e in ws && e.key == key ==> At(ws, key) < |ws| && ws[At(ws, key)] == e
  {
    var i, ws' := At(ws, key), Put(ws, key, w);
    assert forall j :: 0 <= j < |ws| && j != i ==> ws'[j] == ws[j];
    if e in ws {
      var k := Found(ws, e);
      assert k != i ==> ws'[k] == e;
    }
  }

  /** Running one entry keeps or replaces the others; it keeps those whose key its callback leaves alone. */
  lemma {:induction false} FiringKeeps(t: Table, e: Entry, now: int, callback: Callback, other: Entry)
    requires DistinctKeys(t.waiters) && other.key != e.key && KeptOrReplaced(t, other)
    ensures var t' := Fired(t, e, now, callback);
            && DistinctKeys(t'.waiters) && KeptOrReplaced(t', other)
            && (other in t.waiters && !Registers(callback, e, other.key) ==> other in t'.waiters)
            && (Registers(callback, e, other.key) ==> other.waiter.id in t'.replaced)
  {
    var ws := Without(t.waiters, e.key);
    WithoutKeeps(t.waiters, e.key, other);
    if callback(e).Some? {
      PutKeeps(ws, callback(e).value.0, Waiter("", now, t.next), other);
      var w := Fired(t, e, now, callback).waiters[At(ws, callback(e).value.0)].waiter;
      PutKeeps(ws, callback(e).value.0, w, other);
    }
  }

  lemma {:induction false} FiringOnlyAdds(t: Table, e: Entry, now: int, callback: Callback)
    requires DistinctKeys(t.waiters)
    ensures Follows(t, Fired(t, e, now, callback)) && DistinctKeys(Fired(t, e, now, callback).waiters)
    ensures e.waiter.id in Fired(t, e, now, callback).ran
  {
    WithoutKeeps(t.waiters, e.key, e);
    if callback(e).Some? {
      var ws := Without(t.waiters, e.key);
      var w := Fired(t, e, now, callback).waiters[At(ws, callback(e).value.0)].waiter;
      PutKeeps(ws, callback(e).value.0, w, e);
    }
  }

  lemma {:induction false} SweepOnlyAdds(t: Table, snapshot: seq<Entry>, i: nat, online: set<Host>, now: int,
                                         callback: Callback)
    requires DistinctKeys(t.waiters)
    ensures Follows(t, Swept(t, snapshot, i, online, now, callback))
    ensures DistinctKeys(Swept(t, snapshot, i, online, now, callback).waiters)
    ensures forall j :: i <= j < |snapshot| && Due(snapshot[j].waiter, online, now) ==>
              snapshot[j].waiter.id in Swept(t, snapshot, i, online, now, callback).ran
    decreases |snapshot| - i
  {
    if i < |snapshot| {
      if Due(snapshot[i].waiter, online, now) {
        FiringOnlyAdds(t, snapshot[i], now, callback);
        SweepOnlyAdds(Fired(t, snapshot[i], now, callback), snapshot, i + 1, online, now, callback);
      } else {
        SweepOnlyAdds(t, snapshot, i + 1, online, now, callback);
      }
    }
  }

  /** A clash replaces the later entry before the pass runs it. */
  lemma {:induction false} ClashReplaces(t: Table, snapshot: seq<Entry>, k: nat, i: nat, j: nat, online: set<Host>,
                                         now: int, callback: Callback)
    requires DistinctKeys(t.waiters) && DistinctKeys(snapshot)
    requires k <= i < j < |snapshot| && KeptOrReplaced(t, snapshot[j])
    requires Due(snapshot[i].waiter, online, now) && Registers(callback, snapshot[i], snapshot[j].key)
    ensures snapshot[j].waiter.id in Swept(t, snapshot, k, online, now, callback).replaced
    decreases i - k
  {
    var e := snapshot[k];
    if Due(e.waiter, online, now) {
      FiringKeeps(t, e, now, callback, snapshot[j]);
      FiringOnlyAdds(t, e, now, callback);
      if k < i {
        ClashReplaces(Fired(t, e, now, callback), snapshot, k + 1, i, j, online, now, callback);
      } else {
        SweepOnlyAdds(Fired(t, e, now, callback), snapshot, k + 1, online, now, callback);
      }
    } else {
      ClashReplaces(t, snapshot, k + 1, i, j, online, now, callback);
    }
  }

  /** After a clash some registration has been replaced and run all the same. */
  lemma {:induction false} ClashIsUnsound(t: Table, online: set<Host>, now: int, callback: Callback)
    requires Sound(t) && Clash(t.waiters, online, now, callback)
    ensures !Sound(Passed(t, online, now, callback))
  {
    var ws := t.waiters;
    var i, j :| 0 <= i < j < |ws|
      && Due(ws[i].waiter, online, now) && Due(ws[j].waiter, online, now)
      && Registers(callback, ws[i], ws[j].key);
    ClashReplaces(t, ws, 0, i, j, online, now, callback);
    SweepOnlyAdds(t, ws, 0, online, now, callback);
    var id := ws[j].waiter.id;
    assert id in Passed(t, online, now, callback).ran && id in Passed(t, online, now, callback).replaced;
  }

  // ---- a pass without a clash --------------------------------------------------------------------------

  /** The due entries of the snapshot from the `i`-th on are waiting, and none registers a later one's key. */
  ghost predicate Clear(t: Table, snapshot: seq<Entry>, i: nat, online: set<Host>, now: int, callback: Callback) {
    && Distinct(snapshot)
    && !Clash(snapshot, online, now, callback)
    && forall j :: i <= j < |snapshot| && Due(snapshot[j].waiter, online, now) ==> snapshot[j] in t.waiters
  }

  lemma {:induction false} ClearNext(t: Table, snapshot: seq<Entry>, i: nat, online: set<Host>, now: int,
                                     callback: Callback)
    requires Sound(t) && i < |snapshot| && Clear(t, snapshot, i, online, now, callback)
    ensures var t' := if Due(snapshot[i].waiter, online, now) then Fired(t, snapshot[i], now, callback) else t;
            && Sound(t') && Follows(t, t')
            && Clear(t', snapshot, i + 1, online, now, callback)
            && (Due(snapshot[i].waiter, online, now) ==> t'.ran == t.ran + [snapshot[i].waiter.id])
  {
    var e := snapshot[i];
    if Due(e.waiter, online, now) {
      var k := Found(t.waiters, e);
      FiringIsSound(t, k, now, callback);
      forall j | i + 1 <= j < |snapshot| && Due(snapshot[j].waiter, online, now)
        ensures snapshot[j] in Fired(t, e, now, callback).waiters
      {
        FiringKeeps(t, e, now, callback, snapshot[j]);
      }
    }
  }

  /** Is this one of the due entries of the snapshot, from the `i`-th on? */
  ghost predicate DueFrom(snapshot: seq<Entry>, i: nat, online: set<Host>, now: int, id: nat) {
    exists j :: i <= j < |snapshot| && snapshot[j].waiter.id == id && Due(snapshot[j].waiter, online, now)
  }

  lemma {:induction false} DueFromNext(snapshot: seq<Entry>, i: nat, online: set<Host>, now: int, id: nat)
    requires i < |snapshot|
    ensures DueFrom(snapshot, i, online, now, id) <==>
            || DueFrom(snapshot, i + 1, online, now, id)
            || (snapshot[i].waiter.id == id && Due(snapshot[i].waiter, online, now))
  {
  }

  /** Without a clash, a sweep is sound and runs exactly the due entries of its snapshot. */
  lemma {:induction false} SweepIsSound(t: Table, snapshot: seq<Entry>, i: nat, online: set<Host>, now: int,
                                        callback: Callback, id: nat)
    requires Sound(t) && Clear(t, snapshot, i, online, now, callback)
    ensures var t' := Swept(t, snapshot, i, online, now, callback);
            && Sound(t') && Follows(t, t')
            && (id in t'.ran <==> id in t.ran || DueFrom(snapshot, i, online, now, id))
    decreases |snapshot| - i
  {
    if i < |snapshot| {
      ClearNext(t, snapshot, i, online, now, callback);
      DueFromNext(snapshot, i, online, now, id);
      var next := if Due(snapshot[i].waiter, online, now) then Fired(t, snapshot[i], now, callback) else t;
      SweepIsSound(next, snapshot, i + 1, online, now, callback, id);
    }
  }

  /**
   A pass keeps the table sound exactly when no callback it runs registers the key of a later waiter that the
   same pass runs. It then runs exactly the waiters whose host resolved or whose time is up.
   */
  lemma {:induction false} PassIsSoundIffNoClash(t: Table, online: set<Host>, now: int, callback: Callback)
    requires Sound(t)
    ensures Sound(Passed(t, online, now, callback)) <==> !Clash(t.waiters, online, now, callback)
    ensures !Clash(t.waiters, online, now, callback) ==>
              var t' := Passed(t, online, now, callback);
              && Follows(t, t')
              && (forall id :: id in t'.ran <==> id in t.ran || DueFrom(t.waiters, 0, online, now, id))
              && (forall e :: e in t.waiters && !Due(e.waiter, online, now) ==> KeptOrReplaced(t', e))
  {
    if Clash(t.waiters, online, now, callback) {
      ClashIsUnsound(t, online, now, callback);
    } else {
      var t' := Swept(t, t.waiters, 0, online, now, callback);
      SweepIsSound(t, t.waiters, 0, online, now, callback, 0);
      forall id: nat
        ensures id in t'.ran <==> id in t.ran || DueFrom(t.waiters, 0, online, now, id)
      {
        SweepIsSound(t, t.waiters, 0, online, now, callback, id);
      }
      forall e | e in t.waiters && !Due(e.waiter, online, now)
        ensures KeptOrReplaced(t', e)
      {
        SweepKeeps(t, t.waiters, 0, online, now, callback, e);
      }
    }
  }

  lemma {:induction false} SweepKeeps(t: Table, snapshot: seq<Entry>, i: nat, online: set<Host>, now: int,
                                      callback: Callback, x: Entry)
    requires DistinctKeys(t.waiters) && Distinct(snapshot) && KeptOrReplaced(t, x)
    requires x in snapshot && !Due(x.waiter, online, now)
    ensures KeptOrReplaced(Swept(t, snapshot, i, online, now, callback), x)
    decreases |snapshot| - i
  {
    if i < |snapshot| {
      var e := snapshot[i];
      if Due(e.waiter, online, now) {
        var k := Found(snapshot, x);
        FiringKeeps(t, e, now, callback, x);
        SweepKeeps(Fired(t, e, now, callback), snapshot, i + 1, online, now, callback, x);
      } else {
        SweepKeeps(t, snapshot, i + 1, online, now, callback, x);
      }
    }
  }

  // ---- whole runs --------------------------------------------------------------------------------------

  /** A registration, the start of a pass, or the end of one: passes may overlap, so ends come in any order. */
  datatype Event =
    | Register(key: Key, host: Option<Host>, now: int)
    | Tick
    | PassEnd(online: set<Host>, now: int, callback: Callback)

  function Step(t: Table, e: Event): Table {
    match e
    case Register(key, host, now) => Registered(t, key, host, now)
    case Tick => Stopped(t)
    case PassEnd(online, now, callback) => Passed(t, online, now, callback)
  }

  function Run(t: Table, es: seq<Event>): Table
    decreases |es|
  {
    if es == [] then t else Run(Step(t, es[0]), es[1..])
  }

  /** A run is its events one after the other. */
  lemma {:induction false} RunsGoOn(t: Table, es: seq<Event>, e: Event)
    ensures Run(t, es + [e]) == Step(Run(t, es), e)
    decreases |es|
  {
    if es == [] {
      assert es + [e] == [e] && [e][1..] == [];
    } else {
      assert (es + [e])[1..] == es[1..] + [e];
      RunsGoOn(Step(t, es[0]), es[1..], e);
    }
  }

  /** No pass of the run has a clash. */
  ghost predicate Calm(t: Table, es: seq<Event>)
    decreases |es|
  {
    es != [] ==>
      && (es[0].PassEnd? ==> !Clash(t.waiters, es[0].online, es[0].now, es[0].callback))
      && Calm(Step(t, es[0]), es[1..])
  }

  lemma {:induction false} StepIsSound(t: Table, e: Event)
    requires Sound(t) && (e.PassEnd? ==> !Clash(t.waiters, e.online, e.now, e.callback))
    ensures Sound(Step(t, e)) && Follows(t, Step(t, e))
  {
    match e
    case Register(key, host, now) => RegisteringIsSound(t, key, host, now);
    case Tick =>
    case PassEnd(online, now, callback) => PassIsSoundIffNoClash(t, online, now, callback);
  }

  lemma {:induction false} RunIsSound(t: Table, es: seq<Event>)
    requires Sound(t) && Calm(t, es)
    ensures Sound(Run(t, es)) && Follows(t, Run(t, es))
    decreases |es|
  {
    if es != [] {
      StepIsSound(t, es[0]);
      RunIsSound(Step(t, es[0]), es[1..]);
    }
  }

  /** Callbacks that register nothing but their own key keep every run calm. */
  lemma {:induction false} OwnKeysAreCalm(t: Table, es: seq<Event>)
    requires Sound(t) && forall e :: e in es && e.PassEnd? ==> OwnKeys(e.callback)
    ensures Calm(t, es)
    decreases |es|
  {
    if es != [] {
      assert es[0] in es;
      if es[0].PassEnd? {
        OwnKeysNeverClash(t.waiters, es[0].online, es[0].now, es[0].callback);
      }
      StepIsSound(t, es[0]);
      OwnKeysAreCalm(Step(t, es[0]), es[1..]);
    }
  }

  /**
   In every calm interleaving: waiters imply a running timer; each registration runs at most once; and one that
   has run, or was replaced while it waited, never runs whatever follows.
   */
  lemma {:induction false} NothingRunsTwice(es: seq<Event>, more: seq<Event>)
    requires Calm(EMPTY, es) && Calm(Run(EMPTY, es), more)
    ensures var t := Run(EMPTY, es); var t' := Run(t, more);
            && (t.waiters != [] ==> t.armed)
            && Once(t'.ran)
            && (forall id :: id in t.replaced ==> id !in t'.ran)
            && (forall id :: id in t.ran ==> !Waits(t'.waiters, id))
  {
    RunIsSound(EMPTY, es);
    RunIsSound(Run(EMPTY, es), more);
  }

  /** A pass that ends once a waiter has waited its limit runs it, resolved or not. */
  lemma {:induction false} NoWaitIsForever(es: seq<Event>, e: Entry, online: set<Host>, now: int, callback: Callback)
    requires Calm(EMPTY, es) && e in Run(EMPTY, es).waiters && now >= e.waiter.queuedAt + MAX_WAIT_MS
    ensures e.waiter.id in Step(Run(EMPTY, es), PassEnd(online, now, callback)).ran
  {
    var t := Run(EMPTY, es);
    RunIsSound(EMPTY, es);
    var i := Found(t.waiters, e);
    SweepOnlyAdds(t, t.waiters, 0, online, now, callback);
  }

  /** In a pass without a clash a waiter runs exactly when its host is back or it has waited twenty minutes. */
  lemma {:induction false} RunsExactlyWhenDue(t: Table, e: Entry, online: set<Host>, now: int, callback: Callback)
    requires Sound(t) && !Clash(t.waiters, online, now, callback) && e in t.waiters
    ensures e.waiter.id in Passed(t, online, now, callback).ran <==>
            e.waiter.host in online || now - e.waiter.queuedAt >= 1_200_000
  {
    PassIsSoundIffNoClash(t, online, now, callback);
    var i := Found(t.waiters, e);
    assert Waits(t.waiters, e.waiter.id);
    if DueFrom(t.waiters, 0, online, now, e.waiter.id) {
      var j :| 0 <= j < |t.waiters| && t.waiters[j].waiter.id == e.waiter.id && Due(t.waiters[j].waiter, online, now);
      assert i == j;
    }
  }

  /** A registration waits for its host, or for a well-known one, in the place of any waiter of its key. */
  lemma {:induction false} RegisteredIs(t: Table, key: Key, host: Option<Host>, now: int, e: Entry)
    requires Sound(t)
    ensures var name := if host.None? || host.value == "" then "github.com" else host.value;
            e in Registered(t, key, host, now).waiters <==>
              e == Entry(key, Waiter(name, now, t.next)) || (e in t.waiters && e.key != key)
  {
    var name := if host.None? || host.value == "" then "github.com" else host.value;
    var w := Waiter(name, now, t.next);
    var i, ws' := At(t.waiters, key), Put(t.waiters, key, w);
    assert forall j :: 0 <= j < |t.waiters| && j != i ==> ws'[j] == t.waiters[j];
    assert ws'[i] == Entry(key, w);
    if e in t.waiters {
      var k := Found(t.waiters, e);
      assert k != i ==> ws'[k] == e;
    }
    if e in ws' {
      var k := Found(ws', e);
    }
  }

  // ---- a run that goes wrong -----------------------------------------------------------------------------

  /** Its retry of `a` registers `b` for the same host. */
  function RegistersB(): Callback {
    (e: Entry) => if e.key == "a" then Some(("b", Some("host"))) else None
  }

  const FIRST := Entry("a", Waiter("host", 0, 0))
  const SECOND := Entry("b", Waiter("host", 0, 1))

  lemma {:induction false} OneRegistered()
    ensures Registered(EMPTY, "a", Some("host"), 0) == Table([FIRST], true, 1, [], {})
    ensures Sound(Registered(EMPTY, "a", Some("host"), 0))
  {
    assert "host" != "";
    RegisteringIsSound(EMPTY, "a", Some("host"), 0);
  }

  lemma {:induction false} TwoRegistered(t: Table)
    requires t == Table([FIRST], true, 1, [], {}) && Sound(t)
    ensures Registered(t, "b", Some("host"), 0) == Table([FIRST, SECOND], true, 2, [], {})
    ensures Sound(Registered(t, "b", Some("host"), 0))
  {
    assert "host" != "" && "a"[0] != "b"[0];
    assert [FIRST][1..] == [];
    assert At([FIRST], "b") == 1;
    RegisteringIsSound(t, "b", Some("host"), 0);
  }

  lemma {:induction false} BothClash(t: Table)
    requires t == Table([FIRST, SECOND], true, 2, [], {}) && Sound(t)
    ensures Clash(t.waiters, {"host"}, 1, RegistersB())
    ensures var t' := Passed(t, {"host"}, 1, RegistersB()); !Sound(t') && 1 in t'.ran && 1 in t'.replaced
  {
    assert Due(t.waiters[0].waiter, {"host"}, 1) && Due(t.waiters[1].waiter, {"host"}, 1);
    assert Registers(RegistersB(), t.waiters[0], t.waiters[1].key);
    ClashReplaces(t, t.waiters, 0, 0, 1, {"host"}, 1, RegistersB());
    SweepOnlyAdds(t, t.waiters, 0, {"host"}, 1, RegistersB());
    ClashIsUnsound(t, {"host"}, 1, RegistersB());
  }

  lemma {:induction false} TwoSteps(t: Table, es: seq<Event>)
    requires |es| == 2
    ensures Run(t, es) == Step(Step(t, es[0]), es[1])
  {
    assert Run(t, es) == Run(Step(t, es[0]), es[1..]);
    assert es[1..][1..] == [];
  }

  lemma {:induction false} BothRegistered(es: seq<Event>)
    requires es == [Register("a", Some("host"), 0), Register("b", Some("host"), 0)]
    ensures Run(EMPTY, es) == Table([FIRST, SECOND], true, 2, [], {}) && Sound(Run(EMPTY, es))
  {
    TwoSteps(EMPTY, es);
    OneRegistered();
    TwoRegistered(Step(EMPTY, es[0]));
  }

  /** Two waiters of one host that comes back: the first one's callback replaces the second, which runs all the same. */
  lemma {:induction false} ReplacedWaiterRuns(es: seq<Event>, end: Event)
    requires es == [Register("a", Some("host"), 0), Register("b", Some("host"), 0)]
    requires end == PassEnd({"host"}, 1, RegistersB())
    ensures var t := Run(EMPTY, es); Sound(t) && Clash(t.waiters, end.online, end.now, end.callback)
    ensures var t := Step(Run(EMPTY, es), end); !Sound(t) && 1 in t.ran && 1 in t.replaced
  {
    BothRegistered(es);
    BothClash(Run(EMPTY, es));
  }
}
