/** When a video's sampled frames are too sparse: the largest stretch of its timeline without a sample. */
module VideoCoverage {
  import opened Wrappers

  function Max(a: real, b: real): real {
    if a < b then b else a
  }

  /** The largest gap up to the `n`-th sample, from the start of the timeline. */
  function GapTo(ts: seq<real>, n: nat): real
    requires 1 <= n <= |ts|
  {
    if n == 1 then ts[0] else Max(GapTo(ts, n - 1), ts[n - 1] - ts[n - 2])
  }

  function Gap(ts: seq<real>, duration: real): real
    requires ts != []
  {
    if duration > 0.0 then Max(GapTo(ts, |ts|), duration - ts[|ts| - 1]) else GapTo(ts, |ts|)
  }

  /** No samples at all is an infinite gap. */
  method CoverageGap(ts: seq<real>, duration: real) returns (gap: Option<real>)
    ensures gap == if ts == [] then None else Some(Gap(ts, duration))
  {
    if |ts| == 0 {
      return None;
    }
    var g := ts[0];
    for i := 1 to |ts|
      invariant g == GapTo(ts, i)
    {
      g := Max(g, ts[i] - ts[i - 1]);
    }
    if duration > 0.0 {
      g := Max(g, duration - ts[|ts| - 1]);
    }
    gap := Some(g);
  }

  function SparseLimit(interval: real): real {
    Max(5.0, 4.0 * interval)
  }

  // ---- what the gap means ------------------------------------------------------------------------------

  /** Samples come in the order of the timeline, which starts at 0. */
  ghost predicate InOrder(ts: seq<real>) {
    && (forall i :: 0 <= i < |ts| ==> ts[i] >= 0.0)
    && forall i, j :: 0 <= i < j < |ts| ==> ts[i] <= ts[j]
  }

  /** The end of the timeline, as far as it is known. */
  function End(ts: seq<real>, duration: real): real
    requires ts != []
  {
    if duration > 0.0 then Max(duration, ts[|ts| - 1]) else ts[|ts| - 1]
  }

  /** A stretch of the timeline with no sample strictly inside. */
  ghost predicate Bare(ts: seq<real>, duration: real, from: real, to: real)
    requires ts != []
  {
    0.0 <= from <= to <= End(ts, duration) && forall i :: 0 <= i < |ts| ==> ts[i] <= from || ts[i] >= to
  }

  lemma {:induction false} BareBefore(ts: seq<real>, n: nat, from: real, to: real)
    requires InOrder(ts) && 1 <= n <= |ts|
    requires 0.0 <= from <= to <= ts[n - 1] && forall i :: 0 <= i < |ts| ==> ts[i] <= from || ts[i] >= to
    ensures to - from <= GapTo(ts, n)
  {
    if n > 1 && ts[n - 2] >= to {
      BareBefore(ts, n - 1, from, to);
    }
  }

  /** No stretch without a sample is longer than the gap. */
  lemma {:induction false} GapBoundsBareStretches(ts: seq<real>, duration: real, from: real, to: real)
    requires ts != [] && InOrder(ts) && Bare(ts, duration, from, to)
    ensures to - from <= Gap(ts, duration)
  {
    var last := ts[|ts| - 1];
    if to <= last {
      BareBefore(ts, |ts|, from, to);
    }
  }

  lemma {:induction false} GapToIsBare(ts: seq<real>, duration: real, n: nat) returns (from: real, to: real)
    requires InOrder(ts) && 1 <= n <= |ts|
    ensures Bare(ts, duration, from, to) && to - from == GapTo(ts, n)
  {
    if n == 1 {
      from, to := 0.0, ts[0];
    } else if GapTo(ts, n - 1) < ts[n - 1] - ts[n - 2] {
      from, to := ts[n - 2], ts[n - 1];
    } else {
      from, to := GapToIsBare(ts, duration, n - 1);
    }
  }

  /** Some stretch without a sample is as long as the gap. */
  lemma {:induction false} GapIsBare(ts: seq<real>, duration: real) returns (from: real, to: real)
    requires ts != [] && InOrder(ts)
    ensures Bare(ts, duration, from, to) && to - from == Gap(ts, duration)
  {
    if duration > 0.0 && GapTo(ts, |ts|) < duration - ts[|ts| - 1] {
      from, to := ts[|ts| - 1], duration;
      GapToIsPositive(ts, |ts|);
    } else {
      from, to := GapToIsBare(ts, duration, |ts|);
    }
  }

  lemma {:induction false} GapToIsPositive(ts: seq<real>, n: nat)
    requires InOrder(ts) && 1 <= n <= |ts|
    ensures GapTo(ts, n) >= 0.0
  {
    if n > 1 {
      GapToIsPositive(ts, n - 1);
    }
  }

  /** Samples are refused exactly when some stretch longer than five seconds and four intervals holds none. */
  lemma {:induction false} SparseIsExact(ts: seq<real>, duration: real, interval: real)
    requires ts != [] && InOrder(ts)
    ensures Gap(ts, duration) > SparseLimit(interval) <==>
            exists from, to :: Bare(ts, duration, from, to) && to - from > 5.0 && to - from > 4.0 * interval
  {
    var from, to := GapIsBare(ts, duration);
    forall a, b | Bare(ts, duration, a, b)
      ensures b - a <= Gap(ts, duration)
    {
      GapBoundsBareStretches(ts, duration, a, b);
    }
  }

  /** The timeline ends with its last sample, or where the duration says if that is later. */
  lemma {:induction false} BareIs(ts: seq<real>, duration: real, from: real, to: real)
    requires ts != [] && InOrder(ts)
    ensures Bare(ts, duration, from, to) <==>
              && 0.0 <= from <= to && (to <= duration || to <= ts[|ts| - 1])
              && forall i :: 0 <= i < |ts| ==> !(from < ts[i] < to)
  {
  }
}
