/**
 Folding repeated fault lines. The first line of a kind is written at once and opens a group; repeats are
 counted; a flush writes one summary for each group that counted any. What makes two lines the same kind is
 the key function, which is left open.
 */
module Collapse {

  datatype Group = Group(key: string, count: nat, since: int, last: string)

  /** What is handed to the log file: a line in full, or a summary standing for `count` of them. */
  datatype Emitted = Full(line: string) | Summary(count: nat, since: int, last: string)

  /** The open groups in the order they were opened, and everything emitted so far. */
  datatype Fold = Fold(groups: seq<Group>, armed: bool, out: seq<Emitted>)

  const EMPTY := Fold([], false, [])

  function Terminated(line: string): string {
    if line != "" && line[|line| - 1] == '\n' then line else line + "\n"
  }

  /** A line goes out with one line end. */
  lemma {:induction false} TerminatedIs(line: string)
    ensures |line| > 0 && line[|line| - 1] == '\n' ==> Terminated(line) == line
    ensures |line| == 0 || line[|line| - 1] != '\n' ==> Terminated(line) == line + ['\n']
  {
  }

  function Find(gs: seq<Group>, key: string): (i: nat)
    ensures i <= |gs|
    ensures i < |gs| ==> gs[i].key == key
    ensures forall j :: 0 <= j < i ==> gs[j].key != key
  {
    if gs == [] || gs[0].key == key then 0 else 1 + Find(gs[1..], key)
  }

  /** The summaries of the groups that counted a repeat. */
  function Summaries(gs: seq<Group>): seq<Emitted> {
    if gs == [] then []
    else Summaries(gs[..|gs| - 1]) +
         (var g := gs[|gs| - 1]; if g.count < 1 then [] else [Summary(g.count, g.since, g.last)])
  }

  function Flushed(f: Fold): Fold {
    if f.groups == [] then f else Fold([], false, f.out + Summaries(f.groups))
  }

  /** One fault line at time `now`; `cap` bounds the number of open groups. */
  function Wrote(f: Fold, keyOf: string -> string, cap: nat, line: string, now: int): Fold {
    var text := Terminated(line);
    var i := Find(f.groups, keyOf(text));
    if i < |f.groups| then
      f.(groups := f.groups[i := f.groups[i].(count := f.groups[i].count + 1, last := text)])
    else
      var written := f.(out := f.out + [Full(text)]);
      var room := if |written.groups| >= cap then Flushed(written) else written;
      Fold(room.groups + [Group(keyOf(text), 0, now, text)], true, room.out)
  }

  // ---- the algorithm -----------------------------------------------------------------------------------

  class FoldingWriter {
    const keyOf: string -> string
    const cap: nat
    var groups: seq<Group>
    var armed: bool
    var out: seq<Emitted>

    function State(): Fold
      reads this
    {
      Fold(groups, armed, out)
    }

    constructor (keyOf: string -> string, cap: nat)
      ensures this.keyOf == keyOf && this.cap == cap && State() == EMPTY
    {
      this.keyOf, this.cap, this.groups, this.armed, this.out := keyOf, cap, [], false, [];
    }

    method WriteSync(line: string, now: int)
      modifies this
      ensures State() == Wrote(old(State()), keyOf, cap, line, now)
    {
      var text := Terminated(line);
      var key := keyOf(text);
      var i := Find(groups, key);
      if i < |groups| {
        groups := groups[i := groups[i].(count := groups[i].count + 1, last := text)];
        return;
      }
      out := out + [Full(text)];
      if |groups| >= cap {
        FlushCollapsed();
      }
      groups := groups + [Group(key, 0, now, text)];
      armed := true;
    }

    method FlushCollapsed()
      modifies this
      ensures State() == Flushed(old(State()))
    {
      if groups == [] {
        return;
      }
      var all := groups;
      groups, armed := [], false;
      for i := 0 to |all|
        invariant groups == [] && !armed
        invariant out == old(out) + Summaries(all[..i])
      {
        var g := all[i];
        assert all[..i + 1][..i] == all[..i];
        if g.count >= 1 {
          out := out + [Summary(g.count, g.since, g.last)];
        }
      }
      assert all[..|all|] == all;
    }
  }

  // ---- accounting --------------------------------------------------------------------------------------

  datatype Event = Line(line: string, now: int) | Flush

  function Run(keyOf: string -> string, cap: nat, es: seq<Event>): Fold {
    if es == [] then EMPTY
    else
      var f := Run(keyOf, cap, es[..|es| - 1]);
      match es[|es| - 1]
      case Line(line, now) => Wrote(f, keyOf, cap, line, now)
      case Flush => Flushed(f)
  }

  /** How many fault lines of one kind a run brought. */
  function Occurrences(keyOf: string -> string, es: seq<Event>, key: string): nat {
    if es == [] then 0
    else Occurrences(keyOf, es[..|es| - 1], key)
         + (var e := es[|es| - 1]; if e.Line? && keyOf(Terminated(e.line)) == key then 1 else 0)
  }

  function Weight(keyOf: string -> string, e: Emitted, key: string): nat {
    match e
    case Full(line) => if keyOf(line) == key then 1 else 0
    case Summary(n, _, last) => if keyOf(last) == key then n else 0
  }

  /** How many lines of one kind the output accounts for, in full or in summaries. */
  function Accounted(keyOf: string -> string, out: seq<Emitted>, key: string): nat {
    if out == [] then 0 else Accounted(keyOf, out[..|out| - 1], key) + Weight(keyOf, out[|out| - 1], key)
  }

  /** How many repeats of one kind are waiting for a summary. */
  function Pending(gs: seq<Group>, key: string): nat {
    if gs == [] then 0
    else Pending(gs[..|gs| - 1], key) + (var g := gs[|gs| - 1]; if g.key == key then g.count else 0)
  }

  ghost predicate Consistent(f: Fold, keyOf: string -> string, cap: nat) {
    && (forall i :: 0 <= i < |f.groups| ==> keyOf(f.groups[i].last) == f.groups[i].key)
    && (forall i, j :: 0 <= i < j < |f.groups| ==> f.groups[i].key != f.groups[j].key)
    && |f.groups| <= (if cap >= 1 then cap else 1)
    && (f.armed <==> f.groups != [])
  }

  lemma {:induction false} AccountedAppends(keyOf: string -> string, a: seq<Emitted>, b: seq<Emitted>, key: string)
    ensures Accounted(keyOf, a + b, key) == Accounted(keyOf, a, key) + Accounted(keyOf, b, key)
    decreases |b|
  {
    if b == [] {
      assert a + b == a;
    } else {
      assert (a + b)[..|a + b| - 1] == a + b[..|b| - 1];
      AccountedAppends(keyOf, a, b[..|b| - 1], key);
    }
  }

  /** The summaries account for exactly what was pending. */
  lemma {:induction false} SummariesAccount(keyOf: string -> string, gs: seq<Group>, key: string)
    requires forall i :: 0 <= i < |gs| ==> keyOf(gs[i].last) == gs[i].key
    ensures Accounted(keyOf, Summaries(gs), key) == Pending(gs, key)
    decreases |gs|
  {
    if gs != [] {
      var g, rest := gs[|gs| - 1], gs[..|gs| - 1];
      SummariesAccount(keyOf, rest, key);
      var one := if g.count < 1 then [] else [Summary(g.count, g.since, g.last)];
      AccountedAppends(keyOf, Summaries(rest), one, key);
      assert one != [] ==> one[..|one| - 1] == [];
    }
  }

  /** Counting one more repeat adds one to what is pending of its kind. */
  lemma {:induction false} PendingCounts(gs: seq<Group>, i: nat, text: string, key: string)
    requires i < |gs|
    ensures Pending(gs[i := gs[i].(count := gs[i].count + 1, last := text)], key)
         == Pending(gs, key) + if gs[i].key == key then 1 else 0
    decreases |gs|
  {
    var gs' := gs[i := gs[i].(count := gs[i].count + 1, last := text)];
    if i < |gs| - 1 {
      PendingCounts(gs[..|gs| - 1], i, text, key);
      assert gs'[..|gs| - 1] == gs[..|gs| - 1][i := gs[i].(count := gs[i].count + 1, last := text)];
    } else {
      assert gs'[..|gs| - 1] == gs[..|gs| - 1];
    }
  }

  lemma {:induction false} FlushAccounts(f: Fold, keyOf: string -> string, cap: nat, key: string)
    requires Consistent(f, keyOf, cap)
    ensures Consistent(Flushed(f), keyOf, cap) && Flushed(f).groups == []
    ensures Accounted(keyOf, Flushed(f).out, key) == Accounted(keyOf, f.out, key) + Pending(f.groups, key)
  {
    if f.groups != [] {
      SummariesAccount(keyOf, f.groups, key);
      AccountedAppends(keyOf, f.out, Summaries(f.groups), key);
    }
  }

  /** The lines of one kind a fold answers for. */
  function Balance(f: Fold, keyOf: string -> string, key: string): nat {
    Accounted(keyOf, f.out, key) + Pending(f.groups, key)
  }

  lemma {:induction false} RepeatAccounts(f: Fold, keyOf: string -> string, cap: nat, text: string, i: nat, key: string)
    requires Consistent(f, keyOf, cap)
    requires i < |f.groups| && f.groups[i].key == keyOf(text)
    ensures var f' := f.(groups := f.groups[i := f.groups[i].(count := f.groups[i].count + 1, last := text)]);
            && Consistent(f', keyOf, cap)
            && Balance(f', keyOf, key) == Balance(f, keyOf, key) + if keyOf(text) == key then 1 else 0
  {
    PendingCounts(f.groups, i, text, key);
  }

  lemma {:induction false} FullAccounts(f: Fold, keyOf: string -> string, text: string, key: string)
    ensures Accounted(keyOf, f.out + [Full(text)], key)
         == Accounted(keyOf, f.out, key) + if keyOf(text) == key then 1 else 0
  {
    AccountedAppends(keyOf, f.out, [Full(text)], key);
    assert [Full(text)][..0] == [];
  }

  lemma {:induction false} OpeningAccounts(gs: seq<Group>, g: Group, key: string)
    requires g.count == 0
    ensures Pending(gs + [g], key) == Pending(gs, key)
  {
    assert (gs + [g])[..|gs|] == gs;
  }

  /** The table once a line of a new kind has been written out: flushed if it was full. */
  function Roomy(f: Fold, cap: nat): Fold {
    if |f.groups| >= cap then Flushed(f) else f
  }

  lemma {:induction false} RoomyAccounts(f: Fold, keyOf: string -> string, cap: nat, key: string, newcomer: string)
    requires Consistent(f, keyOf, cap)
    requires forall i :: 0 <= i < |f.groups| ==> f.groups[i].key != newcomer
    ensures Consistent(Roomy(f, cap), keyOf, cap) && Balance(Roomy(f, cap), keyOf, key) == Balance(f, keyOf, key)
    ensures |Roomy(f, cap).groups| < (if cap >= 1 then cap else 1)
    ensures forall i :: 0 <= i < |Roomy(f, cap).groups| ==> Roomy(f, cap).groups[i].key != newcomer
  {
    FlushAccounts(f, keyOf, cap, key);
  }

  lemma {:induction false} OpenAccounts(f: Fold, keyOf: string -> string, cap: nat, text: string, now: int, key: string)
    requires Consistent(f, keyOf, cap)
    requires forall i :: 0 <= i < |f.groups| ==> f.groups[i].key != keyOf(text)
    ensures var room := Roomy(f.(out := f.out + [Full(text)]), cap);
            var f' := Fold(room.groups + [Group(keyOf(text), 0, now, text)], true, room.out);
            && Consistent(f', keyOf, cap)
            && Balance(f', keyOf, key) == Balance(f, keyOf, key) + if keyOf(text) == key then 1 else 0
  {
    var written := f.(out := f.out + [Full(text)]);
    FullAccounts(f, keyOf, text, key);
    RoomyAccounts(written, keyOf, cap, key, keyOf(text));
    OpeningAccounts(Roomy(written, cap).groups, Group(keyOf(text), 0, now, text), key);
    OpenedIsConsistent(Roomy(written, cap), keyOf, cap, Group(keyOf(text), 0, now, text));
  }

  lemma {:induction false} OpenedIsConsistent(f: Fold, keyOf: string -> string, cap: nat, g: Group)
    requires Consistent(f, keyOf, cap) && |f.groups| < (if cap >= 1 then cap else 1)
    requires keyOf(g.last) == g.key && forall i :: 0 <= i < |f.groups| ==> f.groups[i].key != g.key
    ensures Consistent(Fold(f.groups + [g], true, f.out), keyOf, cap)
  {
  }

  lemma {:induction false} WriteAccounts(f: Fold, keyOf: string -> string, cap: nat, line: string, now: int,
                                         key: string)
    requires Consistent(f, keyOf, cap)
    ensures Consistent(Wrote(f, keyOf, cap, line, now), keyOf, cap)
    ensures Balance(Wrote(f, keyOf, cap, line, now), keyOf, key)
         == Balance(f, keyOf, key) + if keyOf(Terminated(line)) == key then 1 else 0
  {
    var text := Terminated(line);
    var i := Find(f.groups, keyOf(text));
    if i < |f.groups| {
      RepeatAccounts(f, keyOf, cap, text, i, key);
    } else {
      OpenAccounts(f, keyOf, cap, text, now, key);
    }
  }

  /**
   For every run and every kind of line: each occurrence has been written in full, or counted in a summary, or
   is pending in the one open group of its kind. The table stays within its cap, and its timer is armed
   exactly while it holds a group.
   */
  lemma {:induction false} EveryFaultIsCounted(keyOf: string -> string, cap: nat, es: seq<Event>, key: string)
    ensures var f := Run(keyOf, cap, es);
            && Consistent(f, keyOf, cap)
            && Occurrences(keyOf, es, key) == Accounted(keyOf, f.out, key) + Pending(f.groups, key)
    decreases |es|
  {
    if es != [] {
      var f := Run(keyOf, cap, es[..|es| - 1]);
      EveryFaultIsCounted(keyOf, cap, es[..|es| - 1], key);
      match es[|es| - 1]
      case Line(line, now) => WriteAccounts(f, keyOf, cap, line, now, key);
      case Flush => FlushAccounts(f, keyOf, cap, key);
    }
  }

  /** A line of this kind has come since the last flush. */
  predicate SeenSince(keyOf: string -> string, es: seq<Event>, key: string) {
    es != [] &&
    match es[|es| - 1]
    case Line(line, _) => keyOf(Terminated(line)) == key || SeenSince(keyOf, es[..|es| - 1], key)
    case Flush => false
  }

  predicate IsOpen(gs: seq<Group>, key: string) {
    Find(gs, key) < |gs|
  }

  lemma {:induction false} OpenAfterLine(f: Fold, keyOf: string -> string, cap: nat, line: string, now: int,
                                         key: string)
    requires IsOpen(Wrote(f, keyOf, cap, line, now).groups, key)
    ensures keyOf(Terminated(line)) == key || IsOpen(f.groups, key)
  {
    var gs := Wrote(f, keyOf, cap, line, now).groups;
    var i := Find(gs, key);
    if keyOf(Terminated(line)) != key {
      assert i < |f.groups| && f.groups[i].key == key;
    }
  }

  lemma {:induction false} OpenMeansSeen(keyOf: string -> string, cap: nat, es: seq<Event>, key: string)
    ensures IsOpen(Run(keyOf, cap, es).groups, key) ==> SeenSince(keyOf, es, key)
    decreases |es|
  {
    if es != [] && IsOpen(Run(keyOf, cap, es).groups, key) {
      OpenMeansSeen(keyOf, cap, es[..|es| - 1], key);
      match es[|es| - 1]
      case Line(line, now) => OpenAfterLine(Run(keyOf, cap, es[..|es| - 1]), keyOf, cap, line, now, key);
      case Flush =>
    }
  }

  /** In every run the first line of a kind since a flush is the next thing to reach the output, and at once. */
  lemma {:induction false} FirstIsWrittenAtOnce(keyOf: string -> string, cap: nat, es: seq<Event>, line: string,
                                                now: int)
    requires !SeenSince(keyOf, es, keyOf(Terminated(line)))
    ensures var before, after := Run(keyOf, cap, es).out, Run(keyOf, cap, es + [Line(line, now)]).out;
            |after| > |before| && after[..|before|] == before && after[|before|] == Full(Terminated(line))
  {
    var all := es + [Line(line, now)];
    assert all[..|all| - 1] == es;
    OpenMeansSeen(keyOf, cap, es, keyOf(Terminated(line)));
  }

  /** A flush settles every account: nothing is pending, so the output alone accounts for every occurrence. */
  lemma {:induction false} FlushSettles(keyOf: string -> string, cap: nat, es: seq<Event>, key: string)
    ensures Occurrences(keyOf, es, key) == Accounted(keyOf, Run(keyOf, cap, es + [Flush]).out, key)
  {
    var all := es + [Flush];
    assert all[..|all| - 1] == es;
    EveryFaultIsCounted(keyOf, cap, all, key);
    EveryFaultIsCounted(keyOf, cap, es, key);
    FlushAccounts(Run(keyOf, cap, es), keyOf, cap, key);
  }

  // ---- what a summary says -----------------------------------------------------------------------------

  /** The summaries come in the order of the groups: one with what it has counted, since when, and its last line. */
  lemma {:induction false} SummariesAre(a: seq<Group>, b: seq<Group>, g: Group)
    ensures Summaries(a + b) == Summaries(a) + Summaries(b)
    ensures Summaries([g]) == if g.count >= 1 then [Summary(g.count, g.since, g.last)] else []
    decreases |b|
  {
    assert [g][..0] == [];
    if b == [] {
      assert a + b == a;
    } else {
      assert (a + b)[..|a + b| - 1] == a + b[..|b| - 1];
      SummariesAre(a, b[..|b| - 1], g);
      var last := if b[|b| - 1].count < 1 then [] else
                    [Summary(b[|b| - 1].count, b[|b| - 1].since, b[|b| - 1].last)];
      assert Summaries(a) + (Summaries(b[..|b| - 1]) + last) == (Summaries(a) + Summaries(b[..|b| - 1])) + last;
    }
  }

  /** A line of this kind. */
  predicate IsOf(keyOf: string -> string, e: Event, key: string) {
    e.Line? && keyOf(Terminated(e.line)) == key
  }

  /**
   An open group was opened by the `i`-th event, at its time, and no flush has come since; the `m`-th is the last of
   its kind, and what has been counted is the lines of its kind after the one that opened it.
   */
  ghost predicate Tells(keyOf: string -> string, es: seq<Event>, g: Group, i: nat, m: nat) {
    && i <= m < |es| && IsOf(keyOf, es[i], g.key) && es[i].now == g.since
    && IsOf(keyOf, es[m], g.key) && g.last == Terminated(es[m].line)
    && (forall j :: m < j < |es| ==> !IsOf(keyOf, es[j], g.key))
    && (forall j :: i < j < |es| ==> !es[j].Flush?)
    && g.count + Occurrences(keyOf, es[..i + 1], g.key) == Occurrences(keyOf, es, g.key)
  }

  lemma {:induction false} TellsMore(keyOf: string -> string, es: seq<Event>, e: Event, g: Group, i: nat, m: nat)
    requires Tells(keyOf, es, g, i, m) && e.Line? && !IsOf(keyOf, e, g.key)
    ensures Tells(keyOf, es + [e], g, i, m)
  {
    var all := es + [e];
    assert all[..|all| - 1] == es && all[..i + 1] == es[..i + 1];
    assert forall j :: 0 <= j < |es| ==> all[j] == es[j];
  }

  lemma {:induction false} TellsRepeat(keyOf: string -> string, es: seq<Event>, e: Event, g: Group, i: nat, m: nat)
    requires Tells(keyOf, es, g, i, m) && IsOf(keyOf, e, g.key)
    ensures Tells(keyOf, es + [e], g.(count := g.count + 1, last := Terminated(e.line)), i, |es|)
  {
    var all := es + [e];
    assert all[..|all| - 1] == es && all[..i + 1] == es[..i + 1];
    assert forall j :: 0 <= j < |es| ==> all[j] == es[j];
  }

  lemma {:induction false} TellsOn(keyOf: string -> string, es: seq<Event>, e: Event, g: Group, g': Group,
                                   i: nat, m: nat)
      returns (m': nat)
    requires Tells(keyOf, es, g, i, m) && e.Line?
    requires g' == if IsOf(keyOf, e, g.key) then g.(count := g.count + 1, last := Terminated(e.line)) else g
    ensures Tells(keyOf, es + [e], g', i, m')
  {
    if IsOf(keyOf, e, g.key) {
      TellsRepeat(keyOf, es, e, g, i, m);
      m' := |es|;
    } else {
      TellsMore(keyOf, es, e, g, i, m);
      m' := m;
    }
  }

  lemma {:induction false} TellsNew(keyOf: string -> string, es: seq<Event>, e: Event)
    requires e.Line?
    ensures Tells(keyOf, es + [e], Group(keyOf(Terminated(e.line)), 0, e.now, Terminated(e.line)), |es|, |es|)
  {
    var all := es + [e];
    assert all[..|es| + 1] == all;
  }

  /** Over every run, what an open group will say in its summary is true. */
  lemma {:induction false} GroupsTell(keyOf: string -> string, cap: nat, es: seq<Event>, k: nat)
      returns (i: nat, m: nat)
    requires k < |Run(keyOf, cap, es).groups|
    ensures Tells(keyOf, es, Run(keyOf, cap, es).groups[k], i, m)
    decreases |es|
  {
    var before, e := es[..|es| - 1], es[|es| - 1];
    assert es == before + [e] && e.Line?;
    var f := Run(keyOf, cap, before);
    EveryFaultIsCounted(keyOf, cap, before, "");
    GroupOf(f, keyOf, cap, e.line, e.now, k);
    if k < |f.groups| && Run(keyOf, cap, es).groups[k].key == f.groups[k].key {
      i, m := GroupsTell(keyOf, cap, before, k);
      m := TellsOn(keyOf, before, e, f.groups[k], Run(keyOf, cap, es).groups[k], i, m);
    } else {
      TellsNew(keyOf, before, e);
      i, m := |before|, |before|;
    }
  }

  /** A group after a line is one that was there, with the line counted if it is of its kind, or a new one. */
  lemma {:induction false} GroupOf(f: Fold, keyOf: string -> string, cap: nat, line: string, now: int, k: nat)
    requires Consistent(f, keyOf, cap) && k < |Wrote(f, keyOf, cap, line, now).groups|
    ensures var g, text := Wrote(f, keyOf, cap, line, now).groups[k], Terminated(line);
            if k < |f.groups| && g.key == f.groups[k].key then
              g == if keyOf(text) == g.key then f.groups[k].(count := f.groups[k].count + 1, last := text)
                   else f.groups[k]
            else g == Group(keyOf(text), 0, now, text)
  {
  }
}
