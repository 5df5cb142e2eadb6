/**
 The worker pool of a bulk scan as a state machine: every interleaving of the feeder, the workers and a
 cancellation is a sequence of these actions.
 */
module ScanRun {
  import opened ScanWalk
  import opened ScanPool
  import opened Wrappers

  datatype Worker = Idle | Holding(file: File) | Hashing(file: File) | Exited

  /** What hashing a file comes to. */
  datatype Outcome = Value | Refused | Defer

  datatype Action =
    | Cancel
    | Feed(worker: nat)
    | StopFeeding
    | Close
    | Begin(worker: nat)
    | Finish(worker: nat, outcome: Outcome)
    | Exit(worker: nat)
    | WrapUp

  /** `fed` files have left the queue; `stopped` says the feeder saw the cancellation. */
  datatype Pool = Pool(queue: seq<File>, fed: nat, stopped: bool, closed: bool, workers: seq<Worker>,
                       cancelled: bool, events: seq<Event>, done: bool)

  function Opened(queue: seq<File>, workers: nat, cancelled: bool, events: seq<Event>): Pool {
    Pool(queue, 0, false, false, seq(workers, _ => Idle), cancelled, events, false)
  }

  predicate Is(s: Pool, w: nat, worker: Worker) {
    w < |s.workers| && s.workers[w] == worker
  }

  /** May this action happen now? The channel is unbuffered: a file passes straight to an idle worker. */
  predicate Enabled(s: Pool, a: Action) {
    !s.done &&
    match a
    case Cancel => !s.cancelled
    case Feed(w) => s.fed < |s.queue| && !s.stopped && !s.closed && Is(s, w, Idle)
    case StopFeeding => s.cancelled && s.fed < |s.queue| && !s.stopped && !s.closed
    case Close => !s.closed && (s.stopped || s.fed >= |s.queue|)
    case Begin(w) => w < |s.workers| && s.workers[w].Holding?
    case Finish(w, _) => w < |s.workers| && s.workers[w].Hashing?
    case Exit(w) => s.closed && Is(s, w, Idle)
    case WrapUp => s.closed && forall w :: 0 <= w < |s.workers| ==> s.workers[w] == Exited
  }

  function Put(s: Pool, w: nat, worker: Worker): Pool
    requires w < |s.workers|
  {
    s.(workers := s.workers[w := worker])
  }

  function Emit(s: Pool, e: Event): Pool {
    s.(events := s.events + [e])
  }

  function Ended(f: File, outcome: Outcome): Event {
    match outcome
    case Value => Hashed(f)
    case Refused => Failed(f, Other)
    case Defer => Deferred(f)
  }

  function Next(s: Pool, a: Action): Pool
    requires Enabled(s, a)
  {
    match a
    case Cancel => s.(cancelled := true)
    case Feed(w) => Put(s, w, Holding(s.queue[s.fed])).(fed := s.fed + 1)
    case StopFeeding => s.(stopped := true)
    case Close => s.(closed := true)
    case Begin(w) =>
      var f := s.workers[w].file;
      if s.cancelled then Emit(Put(s, w, Idle), Failed(f, Cancelled)) else Put(s, w, Hashing(f))
    case Finish(w, outcome) => Emit(Put(s, w, Idle), Ended(s.workers[w].file, outcome))
    case Exit(w) => Put(s, w, Exited)
    case WrapUp => Emit(s, Done(s.stopped || s.cancelled)).(done := true)
  }

  // ---- accounting --------------------------------------------------------------------------------------

  function Held(w: Worker, p: Path): nat {
    if (w.Holding? || w.Hashing?) && w.file.path == p then 1 else 0
  }

  function InHand(ws: seq<Worker>, p: Path): nat {
    if ws == [] then 0 else InHand(ws[..|ws| - 1], p) + Held(ws[|ws| - 1], p)
  }

  lemma {:induction false} InHandChanges(ws: seq<Worker>, w: nat, worker: Worker, p: Path)
    requires w < |ws|
    ensures InHand(ws[w := worker], p) + Held(ws[w], p) == InHand(ws, p) + Held(worker, p)
    decreases |ws|
  {
    var front, ws' := ws[..|ws| - 1], ws[w := worker];
    if w < |ws| - 1 {
      InHandChanges(front, w, worker, p);
      assert ws'[..|ws| - 1] == front[w := worker];
    } else {
      assert ws'[..|ws| - 1] == front;
    }
  }

  lemma {:induction false} NothingInHand(ws: seq<Worker>, p: Path)
    requires forall w :: 0 <= w < |ws| ==> !ws[w].Holding? && !ws[w].Hashing?
    ensures InHand(ws, p) == 0
    decreases |ws|
  {
    if ws != [] {
      NothingInHand(ws[..|ws| - 1], p);
    }
  }

  /** How often a path is still to be fed. */
  function Unfed(queue: seq<File>, fed: nat, p: Path): nat
    decreases |queue| - fed
  {
    if fed >= |queue| then 0 else (if queue[fed].path == p then 1 else 0) + Unfed(queue, fed + 1, p)
  }

  lemma {:induction false} UnfedIsRest(queue: seq<File>, fed: nat, p: Path)
    requires fed <= |queue|
    ensures Occurs(queue[..fed], p) + Unfed(queue, fed, p) == Occurs(queue, p)
    decreases |queue| - fed
  {
    if fed < |queue| {
      UnfedIsRest(queue, fed + 1, p);
      OccursMore(queue[..fed], queue[fed], p);
      assert queue[..fed + 1] == queue[..fed] + [queue[fed]];
    } else {
      assert queue[..fed] == queue;
    }
  }

  /** All the answers for a path that have been given or are still to come. */
  function Account(s: Pool, p: Path): nat {
    Answers(s.events, p) + InHand(s.workers, p) + Unfed(s.queue, s.fed, p)
  }

  lemma {:induction false} EmitAccounts(s: Pool, e: Event, p: Path)
    ensures Account(Emit(s, e), p) == Account(s, p) + About(e, p)
  {
    AnswersMore(s.events, e, p);
  }

  lemma {:induction false} PutAccounts(s: Pool, w: nat, worker: Worker, p: Path)
    requires w < |s.workers|
    ensures Account(Put(s, w, worker), p) + Held(s.workers[w], p) == Account(s, p) + Held(worker, p)
  {
    InHandChanges(s.workers, w, worker, p);
  }

  /** No step loses or doubles an answer. */
  lemma {:induction false} StepAccounts(s: Pool, a: Action, p: Path)
    requires Enabled(s, a)
    ensures Account(Next(s, a), p) == Account(s, p)
  {
    match a
    case Cancel =>
    case Feed(w) => PutAccounts(s, w, Holding(s.queue[s.fed]), p);
    case StopFeeding =>
    case Close =>
    case Begin(w) =>
      var f := s.workers[w].file;
      PutAccounts(s, w, Idle, p);
      PutAccounts(s, w, Hashing(f), p);
      EmitAccounts(Put(s, w, Idle), Failed(f, Cancelled), p);
    case Finish(w, outcome) =>
      PutAccounts(s, w, Idle, p);
      EmitAccounts(Put(s, w, Idle), Ended(s.workers[w].file, outcome), p);
    case Exit(w) => PutAccounts(s, w, Exited, p);
    case WrapUp => EmitAccounts(s, Done(s.stopped || s.cancelled), p);
  }

  // ---- the shape every state has -----------------------------------------------------------------------

  ghost predicate EndsOnce(es: seq<Event>, done: bool) {
    && (forall i :: 0 <= i < |es| - 1 ==> !es[i].Done?)
    && (done <==> es != [] && es[|es| - 1].Done?)
  }

  ghost predicate Sound(s: Pool) {
    && (s.stopped ==> s.cancelled)
    && (s.closed ==> s.stopped || s.fed >= |s.queue|)
    && (forall w :: 0 <= w < |s.workers| && s.workers[w] == Exited ==> s.closed)
    && (s.done ==> s.closed && forall w :: 0 <= w < |s.workers| ==> s.workers[w] == Exited)
    && EndsOnce(s.events, s.done)
    && (s.done ==> s.events[|s.events| - 1] == Done(s.cancelled))
  }

  lemma {:induction false} StepIsSound(s: Pool, a: Action)
    requires Sound(s) && Enabled(s, a)
    ensures Sound(Next(s, a))
  {
  }

  /** The state after a run of actions, each possible when it happens. */
  function After(s: Pool, run: seq<Action>): Option<Pool>
    decreases |run|
  {
    if run == [] then Some(s)
    else if Enabled(s, run[0]) then After(Next(s, run[0]), run[1..])
    else None
  }

  lemma {:induction false} RunKeeps(s: Pool, run: seq<Action>, p: Path)
    requires Sound(s) && After(s, run).Some?
    ensures Sound(After(s, run).value)
    ensures Account(After(s, run).value, p) == Account(s, p)
    decreases |run|
  {
    if run != [] {
      StepIsSound(s, run[0]);
      StepAccounts(s, run[0], p);
      RunKeeps(Next(s, run[0]), run[1..], p);
    }
  }

  // ---- what a scan promises ----------------------------------------------------------------------------

  /** The pool of a scan over these files, when hashing begins. */
  function Begun(files: seq<File>, known: map<Path, Known>, includeDataless: bool, duration: Path -> real,
                 workers: nat, cancelled: bool): Pool
  {
    Opened(Queue(Todo(files, known, includeDataless), duration), workers, cancelled,
           Answered(Walk(files, known), files, known, includeDataless))
  }

  lemma {:induction false} BegunIsSound(files: seq<File>, known: map<Path, Known>, includeDataless: bool,
                                        duration: Path -> real, workers: nat, cancelled: bool, p: Path)
    ensures var s := Begun(files, known, includeDataless, duration, workers, cancelled);
            Sound(s) && Account(s, p) == Occurs(files, p)
  {
    var s := Begun(files, known, includeDataless, duration, workers, cancelled);
    AnsweredIsNotDone(Walk(files, known), files, known, includeDataless);
    TriageAccounts(Walk(files, known), files, known, includeDataless, p);
    NothingInHand(s.workers, p);
    QueueOccurs(Todo(files, known, includeDataless), duration, p);
    UnfedIsRest(s.queue, 0, p);
    assert s.queue[..0] == [];
  }

  /**
   In every interleaving, no walked file has more answers than it has places in the walk; when the scan is
   done and was not cancelled it has exactly as many; and `done` is said once, last, and truthfully.
   */
  lemma {:induction false} EveryFileIsAnswered(files: seq<File>, known: map<Path, Known>, includeDataless: bool,
                                               duration: Path -> real, workers: nat, cancelled: bool,
                                               run: seq<Action>, p: Path)
    requires After(Begun(files, known, includeDataless, duration, workers, cancelled), run).Some?
    ensures var s := After(Begun(files, known, includeDataless, duration, workers, cancelled), run).value;
            && Answers(s.events, p) <= Occurs(files, p)
            && (s.done && !s.stopped ==> Answers(s.events, p) == Occurs(files, p))
            && EndsOnce(s.events, s.done)
            && (s.done ==> s.events[|s.events| - 1] == Done(s.cancelled) && (s.stopped ==> s.cancelled))
            && forall f :: Failed(f, Cancelled) in s.events ==> s.cancelled
  {
    var s0 := Begun(files, known, includeDataless, duration, workers, cancelled);
    BegunIsSound(files, known, includeDataless, duration, workers, cancelled, p);
    RunKeeps(s0, run, p);
    var s := After(s0, run).value;
    if s.done && !s.stopped {
      NothingInHand(s.workers, p);
    }
    forall f | Failed(f, Cancelled) in s.events
      ensures s.cancelled
    {
      WhatIsSaid(files, known, includeDataless, duration, workers, cancelled, run, Failed(f, Cancelled));
    }
  }

  /** A path the walk lists once has exactly one place in it. */
  lemma {:induction false} ListedOnce(files: seq<File>, i: nat)
    requires DistinctPaths(files) && i < |files|
    ensures Occurs(files, files[i].path) == 1
    decreases |files|
  {
    var front, last := files[..|files| - 1], files[|files| - 1];
    if i < |files| - 1 {
      ListedOnce(front, i);
      assert last.path != files[i].path;
    } else {
      OccursNowhere(front, last.path);
    }
  }

  lemma {:induction false} OccursNowhere(files: seq<File>, p: Path)
    requires forall f :: f in files ==> f.path != p
    ensures Occurs(files, p) == 0
    decreases |files|
  {
    if files != [] {
      OccursNowhere(files[..|files| - 1], p);
    }
  }

  // ---- the whole scan ----------------------------------------------------------------------------------

  /** The answers so far: at most one for each of these files, one for each when all is done, and none for others. */
  ghost predicate AnswersOnce(files: seq<File>, s: Pool, p: Path) {
    && Answers(s.events, p) <= 1
    && ((forall f :: f in files ==> f.path != p) ==> Answers(s.events, p) == 0)
    && (s.done && !s.stopped && (exists f :: f in files && f.path == p) ==> Answers(s.events, p) == 1)
    && (s.done ==> s.events != [] && s.events[|s.events| - 1] == Done(s.cancelled) && (s.stopped ==> s.cancelled))
  }

  lemma {:induction false} OccursOnce(files: seq<File>, p: Path)
    requires DistinctPaths(files)
    ensures Occurs(files, p) == if exists f :: f in files && f.path == p then 1 else 0
  {
    if f :| f in files && f.path == p {
      var i :| 0 <= i < |files| && files[i] == f;
      ListedOnce(files, i);
    } else {
      OccursNowhere(files, p);
    }
  }

  lemma {:induction false} PrefixIsDistinct(files: seq<File>, all: seq<File>)
    requires DistinctPaths(all) && files <= all
    ensures DistinctPaths(files)
  {
  }

  /** From the walk to the last event: a walked file gets exactly one terminal event, whatever the interleaving. */
  lemma {:induction false} WholeScan(req: Request, root: Visit, files: seq<File>, known: map<Path, Known>,
                                     includeDataless: bool, duration: Path -> real, workers: nat, cancelled: bool,
                                     run: seq<Action>, p: Path)
    requires WellNamed(root.dir) && files <= Files(req, root)
    requires After(Begun(files, known, includeDataless, duration, workers, cancelled), run).Some?
    ensures var s := After(Begun(files, known, includeDataless, duration, workers, cancelled), run).value;
            AnswersOnce(files, s, p) && forall f :: Failed(f, Cancelled) in s.events ==> s.cancelled
  {
    EveryFileIsAnswered(files, known, includeDataless, duration, workers, cancelled, run, p);
    FilesAreDistinct(req, root);
    PrefixIsDistinct(files, Files(req, root));
    OccursOnce(files, p);
  }

  /** A scan up to the point where hashing begins. */
  method BeginScan(req: Request, root: Visit, cancel: Cancel, known: map<Path, Known>, includeDataless: bool,
                   duration: Path -> real, workers: nat, cancelled: bool)
    returns (files: seq<File>, s: Pool)
    requires WellNamed(root.dir)
    ensures s == Begun(files, known, includeDataless, duration, workers, cancelled)
    ensures files <= Files(req, root)
    ensures (forall round :: !cancel(round)) ==> files == First(Files(req, root), Limit(req))
    ensures forall run, p :: After(s, run).Some? ==> AnswersOnce(files, After(s, run).value, p)
  {
    var truncated, unreadable, stopped;
    files, unreadable, truncated, stopped := WalkScan(req, root, cancel);
    var events, todo := Triage(files, known, includeDataless);
    s := Opened(Queue(todo, duration), workers, cancelled, events);
    forall run, p | After(s, run).Some?
      ensures AnswersOnce(files, After(s, run).value, p)
    {
      WholeScan(req, root, files, known, includeDataless, duration, workers, cancelled, run, p);
    }
  }

  /** A run goes on with any action that is possible when it has come so far. */
  lemma {:induction false} RunsGoOn(s: Pool, run: seq<Action>, a: Action)
    requires After(s, run).Some? && Enabled(After(s, run).value, a)
    ensures After(s, run + [a]) == Some(Next(After(s, run).value, a))
    decreases |run|
  {
    if run == [] {
      assert run + [a] == [a] && [a][1..] == [];
    } else {
      assert (run + [a])[1..] == run[1..] + [a];
      RunsGoOn(Next(s, run[0]), run[1..], a);
    }
  }

  // ---- what is said ------------------------------------------------------------------------------------

  /** The state in which the `i`-th action of a run is taken. */
  function Before(s: Pool, run: seq<Action>, i: nat): (b: Pool)
    requires i < |run| && After(s, run).Some?
    ensures Enabled(b, run[i])
    decreases i
  {
    if i == 0 then s else Before(Next(s, run[0]), run[1..], i - 1)
  }

  /** A file is said to be cancelled by a worker that holds it when the scan has been cancelled. */
  ghost predicate TurnedAway(b: Pool, a: Action, e: Event) {
    && a.Begin? && a.worker < |b.workers| && b.workers[a.worker].Holding? && b.cancelled
    && e == Failed(b.workers[a.worker].file, Cancelled)
  }

  /** What hashing a file has come to is said when it is over. */
  ghost predicate Told(b: Pool, a: Action, e: Event) {
    && a.Finish? && a.worker < |b.workers| && b.workers[a.worker].Hashing?
    && var f := b.workers[a.worker].file;
       match a.outcome
       case Value => e == Hashed(f)
       case Refused => e == Failed(f, Other)
       case Defer => e == Deferred(f)
  }

  /** Every event of the pool is said by an action: a cancelled file, the outcome of a hash, or the end. */
  lemma {:induction false} EveryEventHasItsAction(s: Pool, run: seq<Action>, e: Event)
    requires After(s, run).Some? && e in After(s, run).value.events && e !in s.events
    ensures exists i :: 0 <= i < |run| &&
                        (|| TurnedAway(Before(s, run, i), run[i], e) || Told(Before(s, run, i), run[i], e)
                         || (run[i].WrapUp? && e.Done?))
    decreases |run|
  {
    if run != [] {
      var next := Next(s, run[0]);
      if e in next.events {
        assert Before(s, run, 0) == s;
      } else {
        EveryEventHasItsAction(next, run[1..], e);
        var i :| 0 <= i < |run[1..]| &&
                 (|| TurnedAway(Before(next, run[1..], i), run[1..][i], e)
                  || Told(Before(next, run[1..], i), run[1..][i], e) || (run[1..][i].WrapUp? && e.Done?));
        assert Before(s, run, i + 1) == Before(next, run[1..], i) && run[i + 1] == run[1..][i];
      }
    }
  }

  lemma {:induction false} CancelledStays(s: Pool, run: seq<Action>, i: nat)
    requires After(s, run).Some? && i < |run|
    ensures Before(s, run, i).cancelled ==> After(s, run).value.cancelled
    decreases |run|
  {
    if i == 0 {
      if s.cancelled {
        StaysCancelled(s, run);
      }
    } else {
      CancelledStays(Next(s, run[0]), run[1..], i - 1);
    }
  }

  lemma {:induction false} StaysCancelled(s: Pool, run: seq<Action>)
    requires After(s, run).Some? && s.cancelled
    ensures After(s, run).value.cancelled
    decreases |run|
  {
    if run != [] {
      StaysCancelled(Next(s, run[0]), run[1..]);
    }
  }

  /** Nothing is hashed that was not being hashed when the scan was cancelled. */
  lemma {:induction false} NoHashingOnceCancelled(s: Pool, run: seq<Action>, w: nat)
    requires After(s, run).Some? && s.cancelled && w < |s.workers|
    ensures w < |After(s, run).value.workers|
    ensures After(s, run).value.workers[w].Hashing? ==> s.workers[w] == After(s, run).value.workers[w]
    decreases |run|
  {
    if run != [] {
      NoHashingOnceCancelled(Next(s, run[0]), run[1..], w);
    }
  }

  /** Until then a worker hashes the file it holds. */
  lemma {:induction false} BeginsHashing(s: Pool, w: nat)
    requires Enabled(s, Begin(w)) && !s.cancelled
    ensures var s' := Next(s, Begin(w));
            s'.workers[w] == Hashing(s.workers[w].file) && s'.events == s.events
  {
  }

  /** Before hashing begins a file is known, or not downloaded, and nothing else is said of one. */
  lemma {:induction false} WhatTriageSays(files: seq<File>, known: map<Path, Known>, includeDataless: bool, e: Event)
    requires e in Answered(Walk(files, known), files, known, includeDataless)
    ensures match e
            case Walked(total, _, _, _) => total == |files|
            case KnownFile(f) =>
              && f in files && f.path in known && known[f.path].size == f.size
              && f.mtime - 1.0 < known[f.path].mtime < f.mtime + 1.0
            case Failed(f, code) =>
              && code == NotDownloaded && f in files && f.dataless && !includeDataless
              && !(f.path in known && known[f.path].size == f.size
                   && f.mtime - 1.0 < known[f.path].mtime < f.mtime + 1.0)
            case _ => false
  {
    var walked := Walk(files, known);
    TriageSays(walked, files, known, includeDataless, e, File([], Image, 0, 0.0, false, 0.0));
    if e != walked {
      var g :| g in files && e in Answer(g, known, includeDataless);
      AnswerIs(g, known, includeDataless);
    }
  }

  /** After that a file is cancelled only if the scan was, and any other event of a file is the outcome of its hash. */
  lemma {:induction false} WhatThePoolSays(s: Pool, run: seq<Action>, e: Event)
    requires After(s, run).Some? && e in After(s, run).value.events && e !in s.events
    ensures match e
            case Failed(_, Cancelled) => After(s, run).value.cancelled
            case Failed(_, NotDownloaded) => false
            case Failed(_, Other) => exists i :: 0 <= i < |run| && Told(Before(s, run, i), run[i], e)
            case Hashed(_) => exists i :: 0 <= i < |run| && Told(Before(s, run, i), run[i], e)
            case Deferred(_) => exists i :: 0 <= i < |run| && Told(Before(s, run, i), run[i], e)
            case Done(_) => true
            case _ => false
  {
    EveryEventHasItsAction(s, run, e);
    var i :| 0 <= i < |run| && (|| TurnedAway(Before(s, run, i), run[i], e) || Told(Before(s, run, i), run[i], e)
                                || (run[i].WrapUp? && e.Done?));
    CancelledStays(s, run, i);
  }

  /**
   Every event of a scan, whatever the interleaving. The walk is reported. A file is known if the backend has its size
   and a time less than a millisecond off; not downloaded if its bytes are elsewhere and were not asked for; cancelled
   only if the scan was. Any other event of a file is the outcome of a hash of that file.
   */
  lemma {:induction false} WhatIsSaid(files: seq<File>, known: map<Path, Known>, includeDataless: bool,
                                      duration: Path -> real, workers: nat, cancelled: bool, run: seq<Action>, e: Event)
    requires After(Begun(files, known, includeDataless, duration, workers, cancelled), run).Some?
    requires e in After(Begun(files, known, includeDataless, duration, workers, cancelled), run).value.events
    ensures var s := Begun(files, known, includeDataless, duration, workers, cancelled);
            match e
            case Walked(total, _, _, _) => total == |files|
            case KnownFile(f) =>
              && f in files && f.path in known && known[f.path].size == f.size
              && f.mtime - 1.0 < known[f.path].mtime < f.mtime + 1.0
            case Failed(f, NotDownloaded) => f in files && f.dataless && !includeDataless
            case Failed(_, Cancelled) => After(s, run).value.cancelled
            case Failed(_, Other) => exists i :: 0 <= i < |run| && Told(Before(s, run, i), run[i], e)
            case Hashed(_) => exists i :: 0 <= i < |run| && Told(Before(s, run, i), run[i], e)
            case Deferred(_) => exists i :: 0 <= i < |run| && Told(Before(s, run, i), run[i], e)
            case Done(_) => true
  {
    var s := Begun(files, known, includeDataless, duration, workers, cancelled);
    if e in s.events {
      WhatTriageSays(files, known, includeDataless, e);
    } else {
      WhatThePoolSays(s, run, e);
    }
  }

  // ---- a scan always comes to its end ------------------------------------------------------------------

  /** Something can happen, besides a cancellation, until the scan is done. */
  lemma {:induction false} NeverStuck(s: Pool) returns (a: Action)
    requires Sound(s) && !s.done && s.workers != []
    ensures Enabled(s, a) && !a.Cancel?
  {
    if w :| 0 <= w < |s.workers| && s.workers[w].Holding? {
      a := Begin(w);
    } else if w :| 0 <= w < |s.workers| && s.workers[w].Hashing? {
      a := Finish(w, Value);
    } else if !s.closed {
      assert s.workers[0] == Idle;
      a := if s.stopped || s.fed >= |s.queue| then Close else Feed(0);
    } else if w :| 0 <= w < |s.workers| && s.workers[w] == Idle {
      a := Exit(w);
    } else {
      a := WrapUp;
    }
  }

  function Load(w: Worker): nat {
    match w
    case Exited => 0
    case Idle => 1
    case Hashing(_) => 2
    case Holding(_) => 3
  }

  function Loads(ws: seq<Worker>): nat {
    if ws == [] then 0 else Loads(ws[..|ws| - 1]) + Load(ws[|ws| - 1])
  }

  lemma {:induction false} LoadsChange(ws: seq<Worker>, w: nat, worker: Worker)
    requires w < |ws|
    ensures Loads(ws[w := worker]) + Load(ws[w]) == Loads(ws) + Load(worker)
    decreases |ws|
  {
    var front, ws' := ws[..|ws| - 1], ws[w := worker];
    if w < |ws| - 1 {
      LoadsChange(front, w, worker);
      assert ws'[..|ws| - 1] == front[w := worker];
    } else {
      assert ws'[..|ws| - 1] == front;
    }
  }

  function Bit(b: bool): nat {
    if b then 0 else 1
  }

  /** How much can still happen. */
  function Remaining(s: Pool): nat {
    (if s.fed < |s.queue| then 3 * (|s.queue| - s.fed) else 0)
      + Loads(s.workers) + Bit(s.cancelled) + Bit(s.stopped) + Bit(s.closed) + Bit(s.done)
  }

  lemma {:induction false} StepsRunOut(s: Pool, a: Action)
    requires Enabled(s, a)
    ensures Remaining(Next(s, a)) < Remaining(s)
  {
    match a
    case Cancel =>
    case Feed(w) => LoadsChange(s.workers, w, Holding(s.queue[s.fed]));
    case StopFeeding =>
    case Close =>
    case Begin(w) =>
      LoadsChange(s.workers, w, Idle);
      LoadsChange(s.workers, w, Hashing(s.workers[w].file));
    case Finish(w, _) => LoadsChange(s.workers, w, Idle);
    case Exit(w) => LoadsChange(s.workers, w, Exited);
    case WrapUp =>
  }

  /** Every run is finite: it has no more steps than there is work. */
  lemma {:induction false} RunsAreFinite(s: Pool, run: seq<Action>)
    requires After(s, run).Some?
    ensures |run| + Remaining(After(s, run).value) <= Remaining(s)
    decreases |run|
  {
    if run != [] {
      StepsRunOut(s, run[0]);
      RunsAreFinite(Next(s, run[0]), run[1..]);
    }
  }

  lemma {:induction false} LoadsAtStart(k: nat)
    ensures Loads(seq(k, _ => Idle)) == k
  {
    if k > 0 {
      LoadsAtStart(k - 1);
      assert seq(k, _ => Idle)[..k - 1] == seq(k - 1, _ => Idle);
    }
  }

  /** Three steps for a file, one for a worker to leave, and four for the rest. */
  lemma {:induction false} RunsAreShort(queue: seq<File>, workers: nat, cancelled: bool, events: seq<Event>,
                                        run: seq<Action>)
    requires After(Opened(queue, workers, cancelled, events), run).Some?
    ensures |run| <= 3 * |queue| + workers + 4
  {
    RunsAreFinite(Opened(queue, workers, cancelled, events), run);
    LoadsAtStart(workers);
  }
}
