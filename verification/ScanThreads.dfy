/** How many decoder threads each queued video gets, and that the videos running together stay within bounds. */
module ScanThreads {
  import opened ScanWalk
  import opened ScanPool

  const MAX_WORKERS := 256

  /** An explicit count wins, up to a cap; otherwise a share of the cores, and at least one worker. */
  function WorkerCount(asked: int, percent: int, cores: nat): (n: nat)
    ensures 1 <= n
    ensures asked > 0 ==> n == asked || (n == 256 && asked > 256)
    ensures asked <= 0 ==> n == 1 || n <= cores
    ensures asked <= 0 ==>
              var pct := if 1 <= percent <= 100 then percent else 80;
              cores * pct < 100 * (n + 1) && (n == 1 || 100 * n <= cores * pct)
  {
    if asked > 0 then (if asked < MAX_WORKERS then asked else MAX_WORKERS)
    else
      var pct := if percent <= 0 || percent > 100 then 80 else percent;
      var share := cores * pct / 100;
      PercentOf(cores, pct);
      if share > 1 then share else 1
  }

  lemma {:induction false} PercentOf(cores: nat, pct: nat)
    requires pct <= 100
    ensures cores * pct / 100 <= cores
  {
    assert cores * pct <= cores * 100;
  }

  function Ceil(x: real): (n: int)
    ensures n as real - 1.0 < x <= n as real
  {
    -((-x).Floor)
  }

  function Min(a: int, b: int): int {
    if a < b then a else b
  }

  function Max(a: int, b: int): int {
    if a < b then b else a
  }

  /** The cost of the videos among the first `n` files. */
  function VideoCost(todo: seq<File>, n: nat): (c: real)
    requires n <= |todo|
    ensures c >= 0.0
  {
    if n == 0 then 0.0 else VideoCost(todo, n - 1) + (if todo[n - 1].kind == Video then Cost(todo[n - 1]) else 0.0)
  }

  /** The cost of a video is its duration, or a second for 250,000 bytes when that is not known; images cost nothing. */
  lemma {:induction false} OneCost(f: File)
    ensures VideoCost([f], 1) ==
            if f.kind == Image then 0.0 else if f.duration > 0.0 then f.duration else f.size as real / 250000.0
    ensures VideoCost([], 0) == 0.0
  {
  }

  lemma {:induction false} CostsAdd(a: seq<File>, b: seq<File>, n: nat)
    requires n <= |b|
    ensures VideoCost(a + b, |a| + n) == VideoCost(a, |a|) + VideoCost(b, n)
    decreases n
  {
    if n > 0 {
      CostsAdd(a, b, n - 1);
    } else {
      CostOfFront(a, b, |a|);
    }
  }

  lemma {:induction false} CostOfFront(a: seq<File>, b: seq<File>, n: nat)
    requires n <= |a|
    ensures VideoCost(a + b, n) == VideoCost(a, n)
    decreases n
  {
    if n > 0 {
      CostOfFront(a, b, n - 1);
    }
  }

  datatype Plan = Plan(asked: int, floor: nat, total: real, cores: nat)

  function Floor(workers: nat, cores: nat): (n: nat)
    requires workers >= 1
    ensures n >= 2 && n * workers >= cores
    ensures n > 2 ==> (n - 1) * workers < cores
  {
    var each := cores as real / workers as real;
    PerWorkerIs(each, workers, cores, Ceil(each));
    Max(2, Ceil(each))
  }

  lemma {:induction false} PerWorkerIs(each: real, workers: nat, cores: nat, k: int)
    requires workers >= 1 && each == cores as real / workers as real && k as real - 1.0 < each <= k as real
    ensures k * workers >= cores && (k - 1) * workers < cores
    ensures k <= 2 ==> 2 * workers >= cores
  {
    Quotient(cores as real, workers as real);
    assert each * workers as real == cores as real;
    AtLeast(each, k, workers, cores);
    Below(each, k - 1, workers, cores);
    if k <= 2 {
      AtLeast(each, 2, workers, cores);
    }
  }

  lemma {:induction false} AtLeast(each: real, k: int, workers: nat, cores: nat)
    requires each * workers as real == cores as real && each <= k as real
    ensures k * workers >= cores
  {
    Scaled(each, k as real, workers as real);
    WholeProduct(k, workers);
  }

  lemma {:induction false} Below(each: real, k: int, workers: nat, cores: nat)
    requires workers >= 1 && each * workers as real == cores as real && k as real < each
    ensures k * workers < cores
  {
    ScaledMore(k as real, each, workers as real);
    WholeProduct(k, workers);
  }

  lemma {:induction false} Scaled(x: real, y: real, w: real)
    requires x <= y && w >= 0.0
    ensures x * w <= y * w
  {
  }

  lemma {:induction false} ScaledMore(x: real, y: real, w: real)
    requires x < y && w > 0.0
    ensures x * w < y * w
  {
  }

  lemma {:induction false} WholeProduct(k: int, n: int)
    ensures (k * n) as real == k as real * n as real
  {
  }

  method VideoThreadPlan(asked: int, todo: seq<File>, workers: nat, cores: nat) returns (plan: Plan)
    requires workers >= 1
    ensures plan == Plan(asked, Floor(workers, cores), VideoCost(todo, |todo|), cores)
  {
    var total := 0.0;
    for i := 0 to |todo|
      invariant total == VideoCost(todo, i)
    {
      if todo[i].kind == Video {
        total := total + Cost(todo[i]);
      }
    }
    plan := Plan(asked, Floor(workers, cores), total, cores);
  }

  /** An explicit count goes to every file; otherwise an image, or a video among none of any length, gets the floor. */
  lemma {:induction false} PlainThreads(plan: Plan, f: File)
    requires plan.total >= 0.0
    ensures plan.asked > 0 ==> Threads(plan, f) == plan.asked
    ensures plan.asked <= 0 && (f.kind == Image || plan.total == 0.0) ==> Threads(plan, f) == plan.floor
  {
  }

  /** What part of twice the cores a cost is of the whole. */
  function Share(plan: Plan, cost: real): real
    requires plan.total > 0.0
  {
    2.0 * plan.cores as real * (cost / plan.total)
  }

  function Threads(plan: Plan, f: File): int
    requires plan.total >= 0.0
  {
    if plan.asked > 0 then plan.asked
    else if f.kind != Video || plan.total <= 0.0 then plan.floor
    else Min(plan.cores, Max(plan.floor, Ceil(Share(plan, Cost(f)))))
  }

  /** Threads of the files among the first `n` that are in hand. */
  function ThreadsInHand(plan: Plan, todo: seq<File>, inHand: set<nat>, n: nat): int
    requires plan.total >= 0.0 && n <= |todo|
  {
    if n == 0 then 0
    else ThreadsInHand(plan, todo, inHand, n - 1) + (if n - 1 in inHand then Threads(plan, todo[n - 1]) else 0)
  }

  function CountBelow(inHand: set<nat>, n: nat): nat {
    if n == 0 then 0 else CountBelow(inHand, n - 1) + (if n - 1 in inHand then 1 else 0)
  }

  lemma {:induction false} CountIsBounded(inHand: set<nat>, n: nat)
    ensures CountBelow(inHand, n) <= |inHand|
    decreases n
  {
    if n > 0 {
      if n - 1 in inHand {
        CountIsBounded(inHand - {n - 1}, n - 1);
        CountWithout(inHand, n - 1, n - 1);
      } else {
        CountIsBounded(inHand, n - 1);
      }
    }
  }

  lemma {:induction false} CountWithout(inHand: set<nat>, k: nat, n: nat)
    requires n <= k
    ensures CountBelow(inHand - {k}, n) == CountBelow(inHand, n)
  {
    if n > 0 {
      CountWithout(inHand, k, n - 1);
    }
  }

  /** One video: no more than the floor and its share of twice the cores, and no more than the cores. */
  lemma {:induction false} OneVideo(plan: Plan, f: File, share: real)
    requires plan.asked <= 0 && plan.total > 0.0 && plan.floor >= 1 && f.kind == Video
    requires share == Share(plan, Cost(f))
    ensures Threads(plan, f) <= plan.cores
    ensures share >= 0.0
    ensures Threads(plan, f) as real <= plan.floor as real + share
    ensures Threads(plan, f) == plan.cores || (Threads(plan, f) >= plan.floor && Threads(plan, f) as real >= share)
    ensures Threads(plan, f) == plan.cores ==> plan.floor >= plan.cores || share > plan.cores as real - 1.0
    ensures Threads(plan, f) < plan.cores ==> Threads(plan, f) == plan.floor || Threads(plan, f) as real < share + 1.0
  {
    Quotient(Cost(f), plan.total);
    Product(2.0 * plan.cores as real, Cost(f) / plan.total);
  }

  lemma {:induction false} Quotient(a: real, b: real)
    requires a >= 0.0 && b > 0.0
    ensures a / b >= 0.0
  {
  }

  lemma {:induction false} Product(a: real, b: real)
    requires a >= 0.0 && b >= 0.0
    ensures a * b >= 0.0
  {
  }

  lemma {:induction false} SharesAdd(plan: Plan, a: real, b: real)
    requires plan.total > 0.0
    ensures Share(plan, a) + Share(plan, b) == Share(plan, a + b)
  {
    assert (a + b) / plan.total == a / plan.total + b / plan.total;
    Distribute(2.0 * plan.cores as real, a / plan.total, b / plan.total);
  }

  lemma {:induction false} Distribute(k: real, a: real, b: real)
    ensures k * a + k * b == k * (a + b)
  {
  }

  /** Seen from one more file: `share` is what the files before it take, `more` what it takes itself. */
  lemma {:induction false} InHandBelow(plan: Plan, todo: seq<File>, inHand: set<nat>, n: nat, share: real)
    requires n <= |todo| && plan.asked <= 0 && plan.total > 0.0 && plan.floor >= 1
    requires share == Share(plan, VideoCost(todo, n))
    ensures ThreadsInHand(plan, todo, inHand, n) as real <= (CountBelow(inHand, n) * plan.floor) as real + share
  {
    if n == 0 {
      Quotient(0.0, plan.total);
      Product(2.0 * plan.cores as real, 0.0 / plan.total);
    } else {
      var f, before := todo[n - 1], Share(plan, VideoCost(todo, n - 1));
      InHandBelow(plan, todo, inHand, n - 1, before);
      OneMore(CountBelow(inHand, n - 1), plan.floor);
      if f.kind == Video {
        var more := Share(plan, Cost(f));
        SharesAdd(plan, VideoCost(todo, n - 1), Cost(f));
        OneVideo(plan, f, more);
      }
    }
  }

  lemma {:induction false} OneMore(k: nat, floor: nat)
    ensures (k + 1) * floor == k * floor + floor
  {
  }

  lemma {:induction false} AtMost(k: nat, workers: nat, floor: nat)
    requires k <= workers
    ensures k * floor <= workers * floor
  {
  }

  /** With no video queued every file would get the floor. */
  lemma {:induction false} FloorsOnly(plan: Plan, todo: seq<File>, inHand: set<nat>, n: nat)
    requires n <= |todo| && plan.asked <= 0 && plan.total == 0.0
    ensures ThreadsInHand(plan, todo, inHand, n) == CountBelow(inHand, n) * plan.floor
  {
    if n > 0 {
      FloorsOnly(plan, todo, inHand, n - 1);
      OneMore(CountBelow(inHand, n - 1), plan.floor);
    }
  }

  /**
   With no explicit thread count, the plan assigns to the files in hand at once, at most `workers` of them, no
   more than workers * floor + 2 * cores decoder threads, and to each video no more than the cores.
   */
  lemma {:induction false} ThreadsAreBounded(plan: Plan, todo: seq<File>, inHand: set<nat>, workers: nat, cores: nat)
    requires workers >= 1 && |inHand| <= workers
    requires plan == Plan(plan.asked, Floor(workers, cores), VideoCost(todo, |todo|), cores)
    requires plan.asked <= 0
    ensures ThreadsInHand(plan, todo, inHand, |todo|) <= workers * plan.floor + 2 * cores
    ensures forall i :: i in inHand && i < |todo| ==> Threads(plan, todo[i]) <= Max(plan.floor, cores)
    ensures plan.total > 0.0 ==>
              forall i :: i in inHand && i < |todo| && todo[i].kind == Video ==> Threads(plan, todo[i]) <= cores
  {
    CountIsBounded(inHand, |todo|);
    AtMost(CountBelow(inHand, |todo|), workers, plan.floor);
    if plan.total > 0.0 {
      InHandBelow(plan, todo, inHand, |todo|, Share(plan, plan.total));
      assert plan.total / plan.total == 1.0;
    } else {
      FloorsOnly(plan, todo, inHand, |todo|);
    }
  }

  // ---- what a decode gets ----------------------------------------------------------------------------------

  /** A decode of all frames, when the keyframes alone are too sparse, gets at least half the cores. */
  function Decoders(plan: Plan, f: File, full: bool): int
    requires plan.total >= 0.0
  {
    if full then Max(Threads(plan, f), plan.cores / 2) else Threads(plan, f)
  }

  /** A full decode gets what the plan assigned, or half the cores if that is more; any other just what it assigned. */
  lemma {:induction false} FullDecodesGetHalf(plan: Plan, f: File)
    requires plan.total >= 0.0
    ensures var n, half := Decoders(plan, f, true), plan.cores / 2;
            n >= Threads(plan, f) && n >= half && (n == Threads(plan, f) || n == half)
    ensures Decoders(plan, f, false) == Threads(plan, f)
  {
  }

  /** Decoder threads of the files among the first `n` that are in hand, where those in `full` are decoded in full. */
  function DecodersInHand(plan: Plan, todo: seq<File>, inHand: set<nat>, full: set<nat>, n: nat): int
    requires plan.total >= 0.0 && n <= |todo|
  {
    if n == 0 then 0
    else
      DecodersInHand(plan, todo, inHand, full, n - 1)
      + (if n - 1 in inHand then Decoders(plan, todo[n - 1], n - 1 in full) else 0)
  }

  /** Each file taken in hand adds its threads, by the plan and as it is decoded. */
  lemma {:induction false} InHandAdds(plan: Plan, todo: seq<File>, inHand: set<nat>, full: set<nat>, k: nat, n: nat)
    requires plan.total >= 0.0 && n <= |todo| && k !in inHand && k < |todo|
    ensures ThreadsInHand(plan, todo, {}, n) == 0 == DecodersInHand(plan, todo, {}, full, n)
    ensures ThreadsInHand(plan, todo, inHand + {k}, n) ==
            ThreadsInHand(plan, todo, inHand, n) + if k < n then Threads(plan, todo[k]) else 0
    ensures DecodersInHand(plan, todo, inHand + {k}, full, n) ==
            DecodersInHand(plan, todo, inHand, full, n) + if k < n then Decoders(plan, todo[k], k in full) else 0
    decreases n
  {
    if n > 0 {
      InHandAdds(plan, todo, inHand, full, k, n - 1);
    }
  }

  lemma {:induction false} FullDecodesAdd(plan: Plan, todo: seq<File>, inHand: set<nat>, full: set<nat>, n: nat)
    requires plan.total >= 0.0 && n <= |todo|
    ensures DecodersInHand(plan, todo, inHand, full, n)
         <= ThreadsInHand(plan, todo, inHand, n) + CountBelow(inHand, n) * (plan.cores / 2)
  {
    if n > 0 {
      FullDecodesAdd(plan, todo, inHand, full, n - 1);
      OneMore(CountBelow(inHand, n - 1), plan.cores / 2);
    }
  }

  lemma {:induction false} PerWorker(workers: nat, a: nat, b: nat)
    ensures workers * a + workers * b == workers * (a + b)
  {
  }

  /**
   With no explicit thread count, the files decoded at once, at most `workers` of them, run on no more than
   workers * (floor + cores / 2) + 2 * cores decoder threads, and no decode of a video on more than the cores.
   */
  lemma {:induction false} DecodersAreBounded(plan: Plan, todo: seq<File>, inHand: set<nat>, full: set<nat>,
                                              workers: nat,
                                              cores: nat)
    requires workers >= 1 && |inHand| <= workers
    requires plan == Plan(plan.asked, Floor(workers, cores), VideoCost(todo, |todo|), cores)
    requires plan.asked <= 0
    ensures DecodersInHand(plan, todo, inHand, full, |todo|) <= workers * (plan.floor + cores / 2) + 2 * cores
    ensures forall i :: i in inHand && i < |todo| ==> Decoders(plan, todo[i], i in full) <= Max(plan.floor, cores)
    ensures plan.total > 0.0 ==>
              forall i :: i in inHand && i < |todo| && todo[i].kind == Video ==>
                Decoders(plan, todo[i], i in full) <= cores
  {
    ThreadsAreBounded(plan, todo, inHand, workers, cores);
    FullDecodesAdd(plan, todo, inHand, full, |todo|);
    CountIsBounded(inHand, |todo|);
    AtMost(CountBelow(inHand, |todo|), workers, cores / 2);
    PerWorker(workers, plan.floor, cores / 2);
  }
}
