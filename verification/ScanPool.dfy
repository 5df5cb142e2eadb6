/**
 The hashing stage of a bulk scan: files the backend knows, or whose bytes are elsewhere, are answered first;
 the rest go longest-first through a feeder, an unbuffered channel and a pool of workers.
 */
module ScanPool {
  import opened Seqs
  import opened ScanWalk
  import opened Sorting

  datatype Code = NotDownloaded | Cancelled | Other

  datatype Event =
    | Walked(total: nat, images: nat, videos: nat, known: nat)
    | KnownFile(file: File)
    | Failed(file: File, code: Code)
    | Hashed(file: File)
    | Deferred(file: File)
    | Done(cancelled: bool)

  /** How many times an event answers for a path: once, if it is about that file. */
  function About(e: Event, p: Path): nat {
    if !e.Walked? && !e.Done? && e.file.path == p then 1 else 0
  }

  function Answers(es: seq<Event>, p: Path): nat {
    if es == [] then 0 else Answers(es[..|es| - 1], p) + About(es[|es| - 1], p)
  }

  lemma {:induction false} AnswersMore(es: seq<Event>, e: Event, p: Path)
    ensures Answers(es + [e], p) == Answers(es, p) + About(e, p)
  {
    assert (es + [e])[..|es|] == es;
  }

  function Occurs(fs: seq<File>, p: Path): nat {
    if fs == [] then 0 else Occurs(fs[..|fs| - 1], p) + (if fs[|fs| - 1].path == p then 1 else 0)
  }

  lemma {:induction false} OccursMore(fs: seq<File>, f: File, p: Path)
    ensures Occurs(fs + [f], p) == Occurs(fs, p) + (if f.path == p then 1 else 0)
  {
    assert (fs + [f])[..|fs|] == fs;
  }

  lemma {:induction false} OccursBoth(a: seq<File>, b: seq<File>, p: Path)
    ensures Occurs(a + b, p) == Occurs(a, p) + Occurs(b, p)
    decreases |b|
  {
    if b == [] {
      NothingMore(a);
    } else {
      var front := b[..|b| - 1];
      OccursBoth(a, front, p);
      assert (a + b)[..|a + b| - 1] == a + front;
    }
  }

  // ---- before the pool ---------------------------------------------------------------------------------

  datatype Known = Known(size: nat, mtime: real)

  /** The backend holds a value for this file as it is now. */
  predicate IsKnown(known: map<Path, Known>, f: File) {
    f.path in known && known[f.path].size == f.size && -1.0 < known[f.path].mtime - f.mtime < 1.0
  }

  predicate IsElsewhere(f: File, includeDataless: bool) {
    f.dataless && !includeDataless
  }

  function Answer(f: File, known: map<Path, Known>, includeDataless: bool): (es: seq<Event>)
    ensures es == [] || (|es| == 1 && (es[0].KnownFile? || es[0].Failed?) && es[0].file == f)
  {
    if IsKnown(known, f) then [KnownFile(f)]
    else if IsElsewhere(f, includeDataless) then [Failed(f, NotDownloaded)]
    else []
  }

  /**
   A file is answered without reading exactly when the backend has its size and a time less than a millisecond off, or
   when its bytes are elsewhere and were not asked for.
   */
  lemma {:induction false} AnswerIs(f: File, known: map<Path, Known>, includeDataless: bool)
    ensures var same := && f.path in known && known[f.path].size == f.size
                        && f.mtime - 1.0 < known[f.path].mtime < f.mtime + 1.0;
            Answer(f, known, includeDataless) ==
              if same then [KnownFile(f)]
              else if f.dataless && !includeDataless then [Failed(f, NotDownloaded)] else []
  {
  }

  /** The events that need no reading, after the one that reports the walk. */
  function Answered(walked: Event, files: seq<File>, known: map<Path, Known>, includeDataless: bool): seq<Event> {
    if files == [] then [walked]
    else
      Answered(walked, files[..|files| - 1], known, includeDataless)
      + Answer(files[|files| - 1], known, includeDataless)
  }

  /** The files that do. */
  function Todo(files: seq<File>, known: map<Path, Known>, includeDataless: bool): seq<File> {
    if files == [] then []
    else
      var f := files[|files| - 1];
      Todo(files[..|files| - 1], known, includeDataless) + (if Answer(f, known, includeDataless) == [] then [f] else [])
  }

  lemma {:induction false} TriageMore(walked: Event, files: seq<File>, f: File, known: map<Path, Known>,
                                      includeDataless: bool)
    ensures Answered(walked, files + [f], known, includeDataless)
         == Answered(walked, files, known, includeDataless) + Answer(f, known, includeDataless)
    ensures Todo(files + [f], known, includeDataless)
         == Todo(files, known, includeDataless) + (if Answer(f, known, includeDataless) == [] then [f] else [])
  {
    assert (files + [f])[..|files|] == files;
  }

  /** What triage says, and what it leaves to do, file by file. */
  lemma {:induction false} TriageSays(walked: Event, files: seq<File>, known: map<Path, Known>, includeDataless: bool,
                                      e: Event, f: File)
    ensures e in Answered(walked, files, known, includeDataless) <==>
              e == walked || exists g :: g in files && e in Answer(g, known, includeDataless)
    ensures f in Todo(files, known, includeDataless) <==> f in files && Answer(f, known, includeDataless) == []
    decreases |files|
  {
    if files != [] {
      var front, last := files[..|files| - 1], files[|files| - 1];
      TriageSays(walked, front, known, includeDataless, e, f);
      assert files == front + [last];
    }
  }

  /** Every file is answered at once or left to do, not both. */
  lemma {:induction false} TriageAccounts(walked: Event, files: seq<File>, known: map<Path, Known>,
                                          includeDataless: bool, p: Path)
    requires walked.Walked?
    ensures Answers(Answered(walked, files, known, includeDataless), p) + Occurs(Todo(files, known, includeDataless), p)
         == Occurs(files, p)
    decreases |files|
  {
    if files == [] {
      assert [walked][..0] == [];
    } else {
      var front, f := files[..|files| - 1], files[|files| - 1];
      TriageAccounts(walked, front, known, includeDataless, p);
      assert files == front + [f];
      OccursBoth(front, [f], p);
      OneAnswer(Answered(walked, front, known, includeDataless), Todo(front, known, includeDataless), f,
                Answer(f, known, includeDataless), p);
    }
  }

  lemma {:induction false} OneAnswer(events: seq<Event>, todo: seq<File>, f: File, answer: seq<Event>, p: Path)
    requires answer == [] || (|answer| == 1 && !answer[0].Walked? && !answer[0].Done? && answer[0].file == f)
    ensures Answers(events + answer, p) + Occurs(todo + (if answer == [] then [f] else []), p)
         == Answers(events, p) + Occurs(todo, p) + Occurs([f], p)
  {
    assert [f][..0] == [];
    if answer == [] {
      OccursMore(todo, f, p);
      NothingMore(events);
    } else {
      AnswersMore(events, answer[0], p);
      assert answer == [answer[0]];
      NothingMore(todo);
    }
  }

  /** Neither triage nor anything in it announces the end. */
  lemma {:induction false} AnsweredIsNotDone(walked: Event, files: seq<File>, known: map<Path, Known>,
                                             includeDataless: bool)
    requires walked.Walked?
    ensures forall e :: e in Answered(walked, files, known, includeDataless) ==> !e.Done?
    decreases |files|
  {
    if files != [] {
      AnsweredIsNotDone(walked, files[..|files| - 1], known, includeDataless);
    }
  }

  /** What the walk event reports. */
  function Walk(files: seq<File>, known: map<Path, Known>): (w: Event)
    ensures w.Walked? && w.total == |files| == w.images + w.videos
  {
    if files == [] then Walked(0, 0, 0, 0)
    else
      var w, f := Walk(files[..|files| - 1], known), files[|files| - 1];
      Walked(w.total + 1,
             w.images + (if f.kind == Image then 1 else 0),
             w.videos + (if f.kind == Video then 1 else 0),
             w.known + (if IsKnown(known, f) then 1 else 0))
  }

  /** Each file walked is counted as an image or a video, and once more if it is answered as known. */
  lemma {:induction false} WalkMore(files: seq<File>, known: map<Path, Known>, n: nat)
    requires n < |files|
    ensures Walk(files[..0], known) == Walked(0, 0, 0, 0)
    ensures var w, w', f := Walk(files[..n], known), Walk(files[..n + 1], known), files[n];
            && w'.images == w.images + (if f.kind == Image then 1 else 0)
            && w'.videos == w.videos + (if f.kind == Video then 1 else 0)
            && w'.known == w.known + (if Answer(f, known, true) == [KnownFile(f)] then 1 else 0)
  {
    assert files[..n + 1][..n] == files[..n];
  }

  lemma {:induction false} OneMoreWalked(files: seq<File>, f: File, known: map<Path, Known>)
    ensures var w := Walk(files, known);
            Walk(files + [f], known) ==
              Walked(w.total + 1, w.images + (if f.kind == Image then 1 else 0),
                     w.videos + (if f.kind == Video then 1 else 0), w.known + (if IsKnown(known, f) then 1 else 0))
  {
    assert (files + [f])[..|files|] == files;
  }

  lemma {:induction false} OneMoreToDo(files: seq<File>, f: File, known: map<Path, Known>, includeDataless: bool)
    ensures var todo := Todo(files, known, includeDataless);
            Todo(files + [f], known, includeDataless) ==
              if IsKnown(known, f) || IsElsewhere(f, includeDataless) then todo else todo + [f]
  {
    assert (files + [f])[..|files|] == files;
  }

  method Sift(files: seq<File>, known: map<Path, Known>, includeDataless: bool) returns (walked: Event, todo: seq<File>)
    ensures walked == Walk(files, known) && todo == Todo(files, known, includeDataless)
  {
    var images, videos, nKnown := 0, 0, 0;
    ghost var seen: seq<File> := [];
    var i := 0;
    todo := [];
    while i < |files|
      invariant 0 <= i <= |files| && seen == files[..i] && images >= 0 && videos >= 0 && nKnown >= 0
      invariant Walk(seen, known) == Walked(i, images, videos, nKnown)
      invariant todo == Todo(seen, known, includeDataless)
    {
      var f := files[i];
      OneMoreWalked(seen, f, known);
      OneMoreToDo(seen, f, known, includeDataless);
      TakeOneMore(files, i);
      seen := seen + [f];
      if f.kind == Image {
        images := images + 1;
      } else {
        videos := videos + 1;
      }
      if IsKnown(known, f) {
        nKnown := nKnown + 1;
      } else if !IsElsewhere(f, includeDataless) {
        todo := todo + [f];
      }
      i := i + 1;
    }
    assert files[..i] == files;
    walked := Walked(|files|, images, videos, nKnown);
  }

  /** Answer what needs no reading; the rest is to do. */
  method Triage(files: seq<File>, known: map<Path, Known>, includeDataless: bool)
    returns (events: seq<Event>, todo: seq<File>)
    ensures todo == Todo(files, known, includeDataless)
    ensures events == Answered(Walk(files, known), files, known, includeDataless)
  {
    var walked;
    walked, todo := Sift(files, known, includeDataless);
    events := [walked];
    var i := 0;
    while i < |files|
      invariant i <= |files|
      invariant events == Answered(walked, files[..i], known, includeDataless)
    {
      var f := files[i];
      assert files[..i + 1] == files[..i] + [f];
      TriageMore(walked, files[..i], f, known, includeDataless);
      if IsKnown(known, f) {
        events := events + [KnownFile(f)];
      } else if IsElsewhere(f, includeDataless) {
        events := events + [Failed(f, NotDownloaded)];
      }
      i := i + 1;
    }
    assert files[..i] == files;
  }

  // ---- the order of work -------------------------------------------------------------------------------

  /** A video's length, or its bytes at 250 KB a second; an image's bytes. */
  function Cost(f: File): (c: real)
    ensures c >= 0.0
  {
    if f.kind == Video then (if f.duration > 0.0 then f.duration else f.size as real / 250000.0) else f.size as real
  }

  /** May `a` go before `b`: videos first, then the dearer file. */
  predicate Sooner(a: File, b: File) {
    if a.kind != b.kind then a.kind == Video else Cost(a) >= Cost(b)
  }

  /** The probed duration of every video whose bytes are here. */
  function Probed(todo: seq<File>, duration: Path -> real): seq<File> {
    seq(|todo|, i requires 0 <= i < |todo| =>
      if todo[i].kind == Video && !todo[i].dataless then todo[i].(duration := duration(todo[i].path)) else todo[i])
  }

  function Queue(todo: seq<File>, duration: Path -> real): seq<File> {
    Sorted(Probed(todo, duration), Sooner)
  }

  lemma {:induction false} PlacedOccurs(f: File, fs: seq<File>, p: Path)
    ensures Occurs(Placed(f, fs, Sooner), p) == Occurs([f], p) + Occurs(fs, p)
  {
    if fs == [] || Sooner(f, fs[0]) {
      OccursBoth([f], fs, p);
    } else {
      PlacedOccurs(f, fs[1..], p);
      OccursBoth([fs[0]], Placed(f, fs[1..], Sooner), p);
      OccursBoth([fs[0]], fs[1..], p);
      assert fs == [fs[0]] + fs[1..];
    }
  }

  lemma {:induction false} SortedOccurs(fs: seq<File>, p: Path)
    ensures Occurs(Sorted(fs, Sooner), p) == Occurs(fs, p)
  {
    if fs != [] {
      SortedOccurs(fs[1..], p);
      PlacedOccurs(fs[0], Sorted(fs[1..], Sooner), p);
      OccursBoth([fs[0]], fs[1..], p);
      assert fs == [fs[0]] + fs[1..];
    }
  }

  lemma {:induction false} SamePathsOccur(a: seq<File>, b: seq<File>, p: Path)
    requires |a| == |b| && forall i :: 0 <= i < |a| ==> a[i].path == b[i].path
    ensures Occurs(a, p) == Occurs(b, p)
    decreases |a|
  {
    if a != [] {
      SamePathsOccur(a[..|a| - 1], b[..|b| - 1], p);
    }
  }

  lemma {:induction false} QueueOccurs(todo: seq<File>, duration: Path -> real, p: Path)
    ensures Occurs(Queue(todo, duration), p) == Occurs(todo, p)
  {
    SortedOccurs(Probed(todo, duration), p);
    SamePathsOccur(Probed(todo, duration), todo, p);
  }

  /** The queue has videos before images and the dearest first, ties in listing order. */
  lemma {:induction false} QueueIsOrdered(todo: seq<File>, duration: Path -> real, kind: Kind, cost: real)
    ensures Ordered(Queue(todo, duration), Sooner)
    ensures var tie := (f: File) => f.kind == kind && Cost(f) == cost;
            Where(tie, Queue(todo, duration)) == Where(tie, Probed(todo, duration))
  {
    SoonerIsOrder();
    SortedIsOrdered(Probed(todo, duration), Sooner);
    SortedIsStable(Probed(todo, duration), Sooner, (f: File) => f.kind == kind && Cost(f) == cost);
  }

  lemma {:induction false} SoonerIsOrder()
    ensures TotalPreorder(Sooner)
  {
  }

  /** What stands in the queue: the files to do, each video that is here with the length probed for it. */
  lemma {:induction false} QueueHolds(todo: seq<File>, duration: Path -> real, f: File)
    ensures f in Queue(todo, duration) <==>
              exists g :: g in todo &&
                          f == if g.kind == Video && !g.dataless then g.(duration := duration(g.path)) else g
  {
    SortedHolds(Probed(todo, duration), f);
    var ps := Probed(todo, duration);
    if f in ps {
      var i :| 0 <= i < |ps| && ps[i] == f;
      assert todo[i] in todo;
    }
    if g :| g in todo && f == if g.kind == Video && !g.dataless then g.(duration := duration(g.path)) else g {
      var i :| 0 <= i < |todo| && todo[i] == g;
      assert ps[i] == f;
    }
  }

  lemma {:induction false} PlacedHolds(f: File, fs: seq<File>, g: File)
    ensures g in Placed(f, fs, Sooner) <==> g == f || g in fs
  {
    if fs != [] && !Sooner(f, fs[0]) {
      PlacedHolds(f, fs[1..], g);
      assert fs == [fs[0]] + fs[1..];
    }
  }

  lemma {:induction false} SortedHolds(fs: seq<File>, g: File)
    ensures g in Sorted(fs, Sooner) <==> g in fs
  {
    if fs != [] {
      SortedHolds(fs[1..], g);
      PlacedHolds(fs[0], Sorted(fs[1..], Sooner), g);
      assert fs == [fs[0]] + fs[1..];
    }
  }

  /** Videos come before images, a video of known length before a shorter one, whatever their bytes; else bytes tell. */
  lemma {:induction false} LongestFirst(todo: seq<File>, duration: Path -> real, i: nat, j: nat)
    requires i < j < |Queue(todo, duration)|
    ensures var a, b := Queue(todo, duration)[i], Queue(todo, duration)[j];
            && (b.kind == Video ==> a.kind == Video)
            && (a.kind == Video && b.kind == Video && a.duration > 0.0 && b.duration > 0.0 ==> a.duration >= b.duration)
            && (a.kind == Video && b.kind == Video && a.duration > 0.0 && b.duration <= 0.0 ==>
                  a.duration * 250000.0 >= b.size as real)
            && (a.kind == Video && b.kind == Video && a.duration <= 0.0 && b.duration > 0.0 ==>
                  a.size as real >= b.duration * 250000.0)
            && (a.kind == Video && b.kind == Video && a.duration <= 0.0 && b.duration <= 0.0 ==> a.size >= b.size)
            && (a.kind == Image && b.kind == Image ==> a.size >= b.size)
  {
    QueueIsOrdered(todo, duration, Image, 0.0);
    OrderedPair(Queue(todo, duration), i, j);
  }

  lemma {:induction false} OrderedPair(fs: seq<File>, i: nat, j: nat)
    requires Ordered(fs, Sooner) && i < j < |fs|
    ensures Sooner(fs[i], fs[j])
  {
  }
}
