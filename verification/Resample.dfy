/**
 Exact area averaging of a premultiplied image into a grid of another size. The buffers are flat, one
 cell per pixel, as the program lays them out; a cell holds the four channel values it keeps side by side.
 Arithmetic is over `real`.
 */
module Resample {
  import opened Sums

  datatype Channel = Red | Green | Blue | Alpha

  /** A premultiplied pixel on a 0..255 scale. */
  datatype Pixel = Pixel(r: real, g: real, b: real, a: real) {
    function Get(c: Channel): real {
      match c
      case Red => r
      case Green => g
      case Blue => b
      case Alpha => a
    }

    function Plus(that: Pixel): Pixel {
      Pixel(r + that.r, g + that.g, b + that.b, a + that.a)
    }

    function Times(k: real): Pixel {
      Pixel(r * k, g * k, b * k, a * k)
    }

    function Over(k: real): Pixel
      requires k != 0.0
    {
      Pixel(r / k, g / k, b / k, a / k)
    }
  }

  const BLANK := Pixel(0.0, 0.0, 0.0, 0.0)

  /** A decoded image with at least one row and one column. */
  datatype Image = Image(w: nat, h: nat, rows: seq<seq<Pixel>>) {
    ghost predicate Valid() {
      && w >= 1
      && h >= 1
      && |rows| == h
      && forall y :: 0 <= y < h ==> |rows[y]| == w
    }

    function At(x: int, y: int): Pixel
      requires Valid()
      requires 0 <= x < w && 0 <= y < h
    {
      rows[y][x]
    }
  }

  // ---- the coverage of one axis --------------------------------------------------------------------

  /** Where the left edge of source cell `i` of `n` falls on an axis of `m` output cells. */
  function Edge(i: int, n: nat, m: nat): real
    requires n >= 1
  {
    i as real * (m as real / n as real)
  }

  function Max(a: real, b: real): real {
    if a >= b then a else b
  }

  function Min(a: real, b: real): real {
    if a <= b then a else b
  }

  /** The length that the interval from x0 to x1 shares with output cell `o`. */
  function Shared(x0: real, x1: real, o: int): real {
    var lo, hi := Max(x0, o as real), Min(x1, (o + 1) as real);
    if hi > lo then hi - lo else 0.0
  }

  /** The length of output cell `o` that source cell `i` covers. */
  function Overlap(i: int, n: nat, m: nat, o: int): real
    requires n >= 1
  {
    Shared(Edge(i, n, m), Edge(i + 1, n, m), o)
  }

  lemma {:induction false} EdgeOrder(i: int, n: nat, m: nat)
    requires n >= 1
    ensures Edge(i, n, m) <= Edge(i + 1, n, m)
    ensures Edge(0, n, m) == 0.0
    ensures Edge(n, n, m) == m as real
    ensures Edge(i + 1, n, m) == Edge(i, n, m) + m as real / n as real
    ensures i >= 0 ==> Edge(i, n, m) >= 0.0
    ensures i <= n ==> Edge(i, n, m) <= m as real
  {
    var s := m as real / n as real;
    assert s >= 0.0;
    assert (i + 1) as real * s == i as real * s + s;
    assert n as real * s == m as real;
    if i <= n {
      assert (n - i) as real * s >= 0.0;
      assert n as real * s - i as real * s == (n - i) as real * s;
    }
  }

  function Clamp(t: real, lo: real, hi: real): real {
    if t < lo then lo else if t > hi then hi else t
  }

  /** Every output cell is covered exactly once by the source cells: the weights are a partition of unity. */
  lemma {:induction false} CoverageIsOne(n: nat, m: nat, o: int)
    requires n >= 1
    requires 0 <= o < m
    ensures Sum(n, Cover(n, m, o)) == 1.0
  {
    var c := i => Clamp(Edge(i, n, m) - o as real, 0.0, 1.0);
    forall i | 0 <= i < n
      ensures Overlap(i, n, m, o) == c(i + 1) - c(i)
    {
      EdgeOrder(i, n, m);
    }
    SumTelescopes(n, Cover(n, m, o), c);
    EdgeOrder(0, n, m);
  }

  /** Every source cell hands out its whole scaled length: nothing is dropped between output cells. */
  lemma {:induction false} CoverageIsSpent(n: nat, m: nat, i: int)
    requires n >= 1
    requires 0 <= i < n
    ensures Sum(m, o => Overlap(i, n, m, o)) == Edge(i + 1, n, m) - Edge(i, n, m)
  {
    var lo, hi := Edge(i, n, m), Edge(i + 1, n, m);
    var c := o => Clamp((o as int) as real, lo, hi);
    EdgeOrder(i, n, m);
    EdgeOrder(i + 1, n, m);
    forall o | 0 <= o < m
      ensures Overlap(i, n, m, o) == c(o + 1) - c(o)
    {
    }
    SumTelescopes(m, o => Overlap(i, n, m, o), c);
  }

  /** Coverage does not care which end an axis is read from. */
  lemma {:induction false} CoverageMirrors(i: int, n: nat, m: nat, o: int)
    requires n >= 1
    ensures Overlap(n - 1 - i, n, m, m - 1 - o) == Overlap(i, n, m, o)
  {
    EdgeMirrors(i, n, m);
    EdgeMirrors(i + 1, n, m);
  }

  lemma {:induction false} EdgeMirrors(i: int, n: nat, m: nat)
    requires n >= 1
    ensures Edge(n - i, n, m) == m as real - Edge(i, n, m)
  {
    var s := m as real / n as real;
    assert (n - i) as real * s == n as real * s - i as real * s;
  }

  /** On a scale on which every edge is whole, the overlap is what the two intervals have in common. */
  lemma {:induction false} OverlapIs(i: int, n: nat, m: nat, o: int)
    requires n >= 1
    ensures var lo := if i * m >= o * n then i * m else o * n;
            var hi := if (i + 1) * m <= (o + 1) * n then (i + 1) * m else (o + 1) * n;
            n as real * Overlap(i, n, m, o) == if hi > lo then (hi - lo) as real else 0.0
  {
    var x0, x1 := Edge(i, n, m), Edge(i + 1, n, m);
    var y0, y1, z0, z1 := i * m, (i + 1) * m, o * n, (o + 1) * n;
    EdgeScaled(i, n, m);
    EdgeScaled(i + 1, n, m);
    CellScaled(o, n);
    CellScaled(o + 1, n);
    SharedScaled(n as real, x0, x1, o, y0, y1, z0, z1);
  }

  lemma {:induction false} CellScaled(o: int, n: nat)
    ensures n as real * o as real == (o * n) as real
  {
    WholeProduct(o, n);
  }

  lemma {:induction false} EdgeScaled(i: int, n: nat, m: nat)
    requires n >= 1
    ensures n as real * Edge(i, n, m) == (i * m) as real
  {
    var s := m as real / n as real;
    assert n as real * s == m as real;
    assert n as real * (i as real * s) == i as real * (n as real * s);
    WholeProduct(i, m);
  }

  lemma {:induction false} WholeProduct(a: int, b: int)
    ensures (a * b) as real == a as real * b as real
  {
  }

  ghost function Part(lo: real, hi: real): real {
    if hi > lo then hi - lo else 0.0
  }

  lemma {:induction false} SharedScaled(k: real, x0: real, x1: real, o: int, y0: int, y1: int, z0: int, z1: int)
    requires k > 0.0 && k * x0 == y0 as real && k * x1 == y1 as real
    requires k * o as real == z0 as real && k * (o + 1) as real == z1 as real
    ensures var lo, hi := if y0 >= z0 then y0 else z0, if y1 <= z1 then y1 else z1;
            k * Shared(x0, x1, o) == if hi > lo then (hi - lo) as real else 0.0
  {
    var lo, hi := Max(x0, o as real), Min(x1, (o + 1) as real);
    ScaledMax(k, x0, o as real, lo, y0 as real, z0 as real);
    ScaledMin(k, x1, (o + 1) as real, hi, y1 as real, z1 as real);
    ScaledPart(k, lo, hi, Max(y0 as real, z0 as real), Min(y1 as real, z1 as real), Shared(x0, x1, o));
    WholePart(y0, z0, y1, z1);
  }

  lemma {:induction false} ScaledMax(k: real, x: real, y: real, m: real, kx: real, ky: real)
    requires k > 0.0 && m == Max(x, y) && kx == k * x && ky == k * y
    ensures k * m == Max(kx, ky)
  {
    ScaledOrder(k, y, x);
  }

  lemma {:induction false} ScaledMin(k: real, x: real, y: real, m: real, kx: real, ky: real)
    requires k > 0.0 && m == Min(x, y) && kx == k * x && ky == k * y
    ensures k * m == Min(kx, ky)
  {
    ScaledOrder(k, x, y);
  }

  lemma {:induction false} ScaledPart(k: real, lo: real, hi: real, klo: real, khi: real, part: real)
    requires k > 0.0 && klo == k * lo && khi == k * hi && part == Part(lo, hi)
    ensures k * part == Part(klo, khi)
  {
    ScaledOrder(k, hi, lo);
  }

  lemma {:induction false} WholePart(y0: int, z0: int, y1: int, z1: int)
    ensures var lo, hi := if y0 >= z0 then y0 else z0, if y1 <= z1 then y1 else z1;
            Part(Max(y0 as real, z0 as real), Min(y1 as real, z1 as real)) == if hi > lo then (hi - lo) as real else 0.0
  {
  }

  lemma {:induction false} ScaledOrder(k: real, x: real, y: real)
    requires k > 0.0
    ensures x <= y <==> k * x <= k * y
    ensures k * (x - y) == k * x - k * y
  {
    if x <= y {
      assert k * (y - x) >= 0.0;
    } else {
      assert k * (x - y) > 0.0;
    }
  }

  // ---- the average -----------------------------------------------------------------------------------

  /** The coverage of output cell `o`, by source cell. */
  ghost function Cover(n: nat, m: nat, o: int): int -> real
    requires n >= 1
  {
    (i: int) => Overlap(i, n, m, o)
  }

  /** The first `k` pixels, each times its weight. */
  ghost function Weighted(k: nat, p: int -> Pixel, w: int -> real): Pixel {
    if k == 0 then BLANK else Weighted(k - 1, p, w).Plus(p(k - 1).Times(w(k - 1)))
  }

  ghost function PixelsOf(row: seq<Pixel>): int -> Pixel {
    (i: int) => if 0 <= i < |row| then row[i] else BLANK
  }

  /** One output column of a source row, from its first `k` pixels. */
  ghost function RowSum(row: seq<Pixel>, m: nat, o: int, k: nat): Pixel
    requires |row| >= 1
  {
    Weighted(k, PixelsOf(row), Cover(|row|, m, o))
  }

  /** Output column `ox` of every source row. */
  ghost function ColumnOf(img: Image, outW: nat, ox: int): int -> Pixel
    requires img.Valid()
  {
    (y: int) => if 0 <= y < img.h then RowSum(img.rows[y], outW, ox, img.w) else BLANK
  }

  /** One output cell, from the first `k` source rows. */
  ghost function CellSum(img: Image, outW: nat, outH: nat, ox: int, oy: int, k: nat): Pixel
    requires img.Valid()
  {
    Weighted(k, ColumnOf(img, outW, ox), Cover(img.h, outH, oy))
  }

  /** The area average at output cell (ox, oy). */
  ghost function Area(img: Image, outW: nat, outH: nat, ox: int, oy: int): Pixel
    requires img.Valid()
  {
    CellSum(img, outW, outH, ox, oy, img.h)
  }

  /** Resampled to its own size, an image is what it was. */
  lemma {:induction false} SameSizeIsIdentity(img: Image, x: int, y: int)
    requires img.Valid()
    requires 0 <= x < img.w && 0 <= y < img.h
    ensures Area(img, img.w, img.h, x, y) == img.At(x, y)
  {
    OwnCellAlone(img.w, x);
    OwnCellAlone(img.h, y);
    WeightedPicks(img.w, PixelsOf(img.rows[y]), Cover(img.w, img.w, x), x);
    WeightedPicks(img.h, ColumnOf(img, img.w, x), Cover(img.h, img.h, y), y);
  }

  lemma {:induction false} OwnCellAlone(n: nat, o: int)
    requires n >= 1
    ensures forall i :: 0 <= i < n ==> Cover(n, n, o)(i) == if i == o then 1.0 else 0.0
  {
    assert n as real / n as real == 1.0;
  }

  lemma {:induction false} WeightedPicks(k: nat, p: int -> Pixel, w: int -> real, o: int)
    requires o >= 0 && forall i :: 0 <= i < k ==> w(i) == if i == o then 1.0 else 0.0
    ensures Weighted(k, p, w) == if o < k then p(o) else BLANK
  {
    if k > 0 {
      WeightedPicks(k - 1, p, w, o);
    }
  }

  /** The weight output column `o` collects from the first `k` of `n` source columns. */
  ghost function RowWeight(n: nat, m: nat, o: int, k: nat): real
    requires n >= 1
  {
    Sum(k, Cover(n, m, o))
  }

  ghost function ScaledBy(c: real, w: int -> real): int -> real {
    (i: int) => c * w(i)
  }

  /** The weight cell (ox, oy) has accumulated after `k` source rows. */
  ghost function CellWeight(img: Image, outW: nat, outH: nat, ox: int, oy: int, k: nat): real
    requires img.Valid()
  {
    Sum(k, ScaledBy(RowWeight(img.w, outW, ox, img.w), Cover(img.h, outH, oy)))
  }

  /** Each output cell's accumulated weight is exactly one, shrinking or enlarging. */
  lemma {:induction false} WeightIsOne(img: Image, outW: nat, outH: nat, ox: int, oy: int)
    requires img.Valid()
    requires 0 <= ox < outW && 0 <= oy < outH
    ensures CellWeight(img, outW, outH, ox, oy, img.h) == 1.0
  {
    CoverageIsOne(img.w, outW, ox);
    CoverageIsOne(img.h, outH, oy);
    SumEq(img.h, ScaledBy(1.0, Cover(img.h, outH, oy)), Cover(img.h, outH, oy));
  }

  // ---- the algorithm -----------------------------------------------------------------------------------

  datatype Span = Span(out: nat, wt: real)

  /** What a source cell's coverage list must say: each covered output cell once, with its overlap. */
  ghost predicate Covers(spans: seq<Span>, i: int, n: nat, m: nat, upTo: int)
    requires n >= 1
  {
    && (forall s :: 0 <= s < |spans| ==> spans[s].out < m && spans[s].out < upTo
                                         && spans[s].wt == Overlap(i, n, m, spans[s].out))
    && (forall s, t :: 0 <= s < t < |spans| ==> spans[s].out != spans[t].out)
    && (forall o :: 0 <= o < upTo && o < m && Overlap(i, n, m, o) != 0.0 ==>
          exists s :: 0 <= s < |spans| && spans[s].out == o)
  }

  /** One more output cell looked at. */
  lemma {:induction false} CoversMore(spans: seq<Span>, i: int, n: nat, m: nat, o: nat)
    requires n >= 1 && o < m && Covers(spans, i, n, m, o)
    ensures var wt := Overlap(i, n, m, o);
            Covers(if wt > 0.0 then spans + [Span(o, wt)] else spans, i, n, m, o + 1)
  {
    var wt := Overlap(i, n, m, o);
    var more := spans + [Span(o, wt)];
    assert more[|spans|].out == o;
    assert forall s :: 0 <= s < |spans| ==> more[s] == spans[s];
  }

  lemma {:induction false} SpanIsShared(x0: real, x1: real, o: nat, lo: real, hi: real)
    requires lo == Max(x0, o as real) && hi == Min(x1, (o + 1) as real)
    ensures Shared(x0, x1, o) == if hi > lo then hi - lo else 0.0
  {
  }

  /** Cells beyond the end of the source cell are not covered by it. */
  lemma {:induction false} CoversRest(spans: seq<Span>, i: nat, n: nat, m: nat, o: nat)
    requires i < n && Covers(spans, i, n, m, o)
    requires o >= m || o as real >= Edge(i + 1, n, m)
    ensures Covers(spans, i, n, m, m)
  {
  }

  method CoverageOf(i: nat, n: nat, m: nat) returns (spans: seq<Span>)
    requires i < n
    ensures Covers(spans, i, n, m, m)
  {
    spans := [];
    var x0, x1 := Edge(i, n, m), Edge(i + 1, n, m);
    EdgeOrder(i, n, m);
    var o := x0.Floor;
    while o < m && o as real < x1
      invariant 0 <= o
      invariant Covers(spans, i, n, m, o)
      decreases m - o
    {
      var lo, hi := Max(x0, o as real), Min(x1, (o + 1) as real);
      CoversMore(spans, i, n, m, o);
      SpanIsShared(x0, x1, o, lo, hi);
      if hi > lo {
        spans := spans + [Span(o, hi - lo)];
      }
      o := o + 1;
    }
    CoversRest(spans, i, n, m, o);
  }

  /** One row of output cells after a scan of the source row. */
  method AccumulateRow(row: seq<Pixel>, outW: nat, colSpans: seq<seq<Span>>, rowOut: array<Pixel>, rowW: array<real>)
    requires |row| >= 1
    requires |colSpans| == |row|
    requires forall x :: 0 <= x < |row| ==> Covers(colSpans[x], x, |row|, outW, outW)
    requires rowOut.Length == outW && rowW.Length == outW
    modifies rowOut, rowW
    ensures forall o :: 0 <= o < outW ==> rowOut[o] == RowSum(row, outW, o, |row|)
    ensures forall o :: 0 <= o < outW ==> rowW[o] == RowWeight(|row|, outW, o, |row|)
  {
    Clear(rowOut, rowW);
    for x := 0 to |row|
      invariant forall o :: 0 <= o < outW ==> rowOut[o] == RowSum(row, outW, o, x)
      invariant forall o :: 0 <= o < outW ==> rowW[o] == RowWeight(|row|, outW, o, x)
    {
      TakePixel(row, outW, x, colSpans[x], rowOut, rowW);
    }
  }

  method Clear(rowOut: array<Pixel>, rowW: array<real>)
    requires rowOut.Length == rowW.Length
    modifies rowOut, rowW
    ensures forall o :: 0 <= o < rowOut.Length ==> rowOut[o] == BLANK && rowW[o] == 0.0
  {
    for i := 0 to rowOut.Length
      invariant forall o :: 0 <= o < i ==> rowOut[o] == BLANK
    {
      rowOut[i] := BLANK;
    }
    for i := 0 to rowW.Length
      invariant forall o :: 0 <= o < i ==> rowW[o] == 0.0
      invariant forall o :: 0 <= o < rowOut.Length ==> rowOut[o] == BLANK
    {
      rowW[i] := 0.0;
    }
  }

  method TakePixel(row: seq<Pixel>, outW: nat, x: nat, spans: seq<Span>, rowOut: array<Pixel>, rowW: array<real>)
    requires x < |row| && Covers(spans, x, |row|, outW, outW)
    requires rowOut.Length == rowW.Length == outW
    requires forall o :: 0 <= o < outW ==> rowOut[o] == RowSum(row, outW, o, x)
    requires forall o :: 0 <= o < outW ==> rowW[o] == RowWeight(|row|, outW, o, x)
    modifies rowOut, rowW
    ensures forall o :: 0 <= o < outW ==> rowOut[o] == RowSum(row, outW, o, x + 1)
    ensures forall o :: 0 <= o < outW ==> rowW[o] == RowWeight(|row|, outW, o, x + 1)
  {
    ghost var to, wTo := seq(outW, o => RowSum(row, outW, o, x + 1)), seq(outW, o => RowWeight(|row|, outW, o, x + 1));
    SpansTake(row, outW, x, spans, rowOut[..], to, rowW[..], wTo);
    AddSpans(row[x], spans, rowOut, rowW, to, wTo);
  }

  /** Taking in pixel `p` along `spans` moves one state of the output columns to the next. */
  ghost predicate SpansMove(p: Pixel, spans: seq<Span>, from: seq<Pixel>, to: seq<Pixel>, wFrom: seq<real>,
                            wTo: seq<real>) {
    && |from| == |to| == |wFrom| == |wTo|
    && (forall s :: 0 <= s < |spans| ==>
          && spans[s].out < |from|
          && to[spans[s].out] == from[spans[s].out].Plus(p.Times(spans[s].wt))
          && wTo[spans[s].out] == wFrom[spans[s].out] + spans[s].wt)
    && (forall s, t :: 0 <= s < t < |spans| ==> spans[s].out != spans[t].out)
    && (forall o :: 0 <= o < |from| && (forall s :: 0 <= s < |spans| ==> spans[s].out != o) ==>
          to[o] == from[o] && wTo[o] == wFrom[o])
  }

  lemma {:induction false} SpansTake(row: seq<Pixel>, outW: nat, x: nat, spans: seq<Span>,
                  from: seq<Pixel>, to: seq<Pixel>, wFrom: seq<real>, wTo: seq<real>)
    requires x < |row|
    requires Covers(spans, x, |row|, outW, outW)
    requires |from| == |to| == |wFrom| == |wTo| == outW
    requires forall o :: 0 <= o < outW ==> from[o] == RowSum(row, outW, o, x) && to[o] == RowSum(row, outW, o, x + 1)
    requires forall o :: 0 <= o < outW ==>
               wFrom[o] == RowWeight(|row|, outW, o, x) && wTo[o] == RowWeight(|row|, outW, o, x + 1)
    ensures SpansMove(row[x], spans, from, to, wFrom, wTo)
  {
    forall s | 0 <= s < |spans| {
      RowStep(row, outW, spans[s].out, x, spans[s].wt);
    }
    forall o | 0 <= o < outW && (forall s :: 0 <= s < |spans| ==> spans[s].out != o)
      ensures to[o] == from[o] && wTo[o] == wFrom[o]
    {
      RowStep(row, outW, o, x, 0.0);
    }
  }

  lemma {:induction false} RowStep(row: seq<Pixel>, m: nat, o: int, x: nat, wt: real)
    requires x < |row|
    requires wt == Overlap(x, |row|, m, o)
    ensures RowSum(row, m, o, x + 1) == RowSum(row, m, o, x).Plus(row[x].Times(wt))
    ensures RowWeight(|row|, m, o, x + 1) == RowWeight(|row|, m, o, x) + wt
  {
    assert Cover(|row|, m, o)(x) == wt;
    assert PixelsOf(row)(x) == row[x];
  }

  /** One of the first `k` spans is for output column `o`. */
  ghost predicate Reached(spans: seq<Span>, k: nat, o: int)
    requires k <= |spans|
  {
    exists s :: 0 <= s < k && spans[s].out == o
  }

  lemma {:induction false} ReachedNext(spans: seq<Span>, k: nat)
    requires k < |spans|
    ensures forall o :: Reached(spans, k + 1, o) <==> Reached(spans, k, o) || o == spans[k].out
  {
    forall o
      ensures Reached(spans, k + 1, o) <==> Reached(spans, k, o) || o == spans[k].out
    {
      if o == spans[k].out {
        assert 0 <= k < k + 1;
      }
    }
  }

  /** A source pixel added to every output column it covers. */
  method AddSpans(p: Pixel, spans: seq<Span>, rowOut: array<Pixel>, rowW: array<real>,
                  ghost to: seq<Pixel>, ghost wTo: seq<real>)
    requires SpansMove(p, spans, rowOut[..], to, rowW[..], wTo)
    modifies rowOut, rowW
    ensures rowOut[..] == to && rowW[..] == wTo
  {
    ghost var from, wFrom := rowOut[..], rowW[..];
    for s := 0 to |spans|
      invariant forall o :: 0 <= o < rowOut.Length ==> rowOut[o] == if Reached(spans, s, o) then to[o] else from[o]
      invariant forall o :: 0 <= o < rowW.Length ==> rowW[o] == if Reached(spans, s, o) then wTo[o] else wFrom[o]
    {
      var o := spans[s].out;
      ReachedNext(spans, s);
      assert !Reached(spans, s, o);
      rowOut[o] := rowOut[o].Plus(p.Times(spans[s].wt));
      rowW[o] := rowW[o] + spans[s].wt;
    }
  }

  // ---- flat buffers -----------------------------------------------------------------------------------

  /** The index of cell (x, y) in a buffer that is `w` cells wide. */
  function Cell(w: nat, x: int, y: int): int {
    y * w + x
  }

  /** Where row `y` starts: `y * w`, by repeated addition. */
  ghost function RowStart(w: nat, y: nat): nat {
    if y == 0 then 0 else RowStart(w, y - 1) + w
  }

  lemma {:induction false} RowStartIsProduct(w: nat, y: nat)
    ensures RowStart(w, y) == y * w
  {
    if y > 0 {
      RowStartIsProduct(w, y - 1);
      assert (y - 1) * w + w == y * w;
    }
  }

  lemma {:induction false} RowStartGrows(w: nat, y: nat, h: nat)
    requires y <= h
    ensures RowStart(w, y) <= RowStart(w, h)
    ensures y < h ==> RowStart(w, y) + w <= RowStart(w, h)
  {
    if y < h {
      RowStartGrows(w, y, h - 1);
    }
  }

  /** A flat buffer of `h` rows of `w` cells, laid out row after row. */
  ghost function Grid<T>(w: nat, h: nat, f: (int, int) -> T): (cells: seq<T>)
    ensures |cells| == RowStart(w, h)
  {
    if h == 0 then [] else Grid(w, h - 1, f) + seq(w, x => f(x, h - 1))
  }

  lemma {:induction false} GridAt<T>(w: nat, h: nat, f: (int, int) -> T, x: nat, y: nat)
    requires x < w && y < h
    ensures RowStart(w, y) + x < RowStart(w, h)
    ensures Grid(w, h, f)[RowStart(w, y) + x] == f(x, y)
  {
    RowStartGrows(w, y, h);
    if y < h - 1 {
      GridAt(w, h - 1, f, x, y);
    }
  }

  lemma {:induction false} GridAll<T>(w: nat, h: nat, f: (int, int) -> T, v: T)
    requires forall x, y :: 0 <= x < w && 0 <= y < h ==> f(x, y) == v
    ensures forall i :: 0 <= i < RowStart(w, h) ==> Grid(w, h, f)[i] == v
  {
    if h > 0 {
      GridAll(w, h - 1, f, v);
    }
  }

  /** The whole pixel buffer, and the whole weight buffer, once `k` source rows are in. */
  ghost function Layer(img: Image, outW: nat, outH: nat, k: nat): seq<Pixel>
    requires img.Valid() && k <= img.h
  {
    Grid(outW, outH, (x, y) => CellSum(img, outW, outH, x, y, k))
  }

  ghost function Weights(img: Image, outW: nat, outH: nat, k: nat): seq<real>
    requires img.Valid() && k <= img.h
  {
    Grid(outW, outH, (x, y) => CellWeight(img, outW, outH, x, y, k))
  }

  /** `now` has reached `to` in its first `done` places and is still `from` in the rest. */
  ghost predicate Between<T>(now: seq<T>, from: seq<T>, to: seq<T>, done: int) {
    && |now| == |from| == |to|
    && forall i :: 0 <= i < |now| ==> now[i] == if i < done then to[i] else from[i]
  }

  /** Output row `oy` of the buffers moves from one state to the next by taking in a source row. */
  ghost predicate Takes(from: seq<Pixel>, to: seq<Pixel>, wFrom: seq<real>, wTo: seq<real>,
                        rowOut: seq<Pixel>, rowW: seq<real>, base: int, wt: real)
  {
    && |from| == |to| == |wFrom| == |wTo|
    && |rowOut| == |rowW|
    && 0 <= base && base + |rowOut| <= |from|
    && (forall x :: 0 <= x < |rowOut| ==> to[base + x] == from[base + x].Plus(rowOut[x].Times(wt)))
    && (forall x :: 0 <= x < |rowW| ==> wTo[base + x] == wFrom[base + x] + rowW[x] * wt)
  }

  /** A whole source row is taken in: every output row by the length it shares with [y0, y1]. */
  ghost predicate AllTake(from: seq<Pixel>, to: seq<Pixel>, wFrom: seq<real>, wTo: seq<real>,
                          rowOut: seq<Pixel>, rowW: seq<real>, outH: nat, y0: real, y1: real)
  {
    && |from| == |to| == |wFrom| == |wTo| == RowStart(|rowOut|, outH)
    && forall oy {:trigger Shared(y0, y1, oy)} :: 0 <= oy < outH ==>
         Takes(from, to, wFrom, wTo, rowOut, rowW, RowStart(|rowOut|, oy), Shared(y0, y1, oy))
  }

  /** One output row takes in one source row, held in rowOut and rowW, with vertical weight `wt`. */
  method AddBand(base: nat, wt: real, rowOut: array<Pixel>, rowW: array<real>, acc: array<Pixel>, wsum: array<real>,
                 ghost from: seq<Pixel>, ghost to: seq<Pixel>, ghost wFrom: seq<real>, ghost wTo: seq<real>)
    requires acc != rowOut && wsum != rowW
    requires Between(acc[..], from, to, base) && Between(wsum[..], wFrom, wTo, base)
    requires Takes(from, to, wFrom, wTo, rowOut[..], rowW[..], base, wt)
    modifies acc, wsum
    ensures Between(acc[..], from, to, base + rowOut.Length)
    ensures Between(wsum[..], wFrom, wTo, base + rowOut.Length)
  {
    for ox := 0 to rowOut.Length
      invariant Between(acc[..], from, to, base + ox)
      invariant Between(wsum[..], wFrom, wTo, base + ox)
    {
      var o := base + ox;
      assert acc[o] == acc[..][o] == from[o] && wsum[o] == wsum[..][o] == wFrom[o];
      acc[o] := acc[o].Plus(rowOut[ox].Times(wt));
      wsum[o] := wsum[o] + rowW[ox] * wt;
      assert acc[o] == to[o] && wsum[o] == wTo[o];
    }
  }

  /** Output rows that share nothing with [y0, y1] may be counted as done or not. */
  lemma {:induction false} SkipBands(acc: seq<Pixel>, wsum: seq<real>,
                                     from: seq<Pixel>, to: seq<Pixel>, wFrom: seq<real>, wTo: seq<real>,
                                     rowOut: seq<Pixel>, rowW: seq<real>, outH: nat, y0: real, y1: real,
                                     lo: nat, hi: nat)
    requires AllTake(from, to, wFrom, wTo, rowOut, rowW, outH, y0, y1)
    requires lo <= hi <= outH
    requires forall oy :: lo <= oy < hi ==> Shared(y0, y1, oy) == 0.0
    requires Between(acc, from, to, RowStart(|rowOut|, lo)) && Between(wsum, wFrom, wTo, RowStart(|rowOut|, lo))
    ensures Between(acc, from, to, RowStart(|rowOut|, hi)) && Between(wsum, wFrom, wTo, RowStart(|rowOut|, hi))
    decreases hi - lo
  {
    if lo < hi {
      assert Shared(y0, y1, lo) == 0.0;
      var base := RowStart(|rowOut|, lo);
      assert Takes(from, to, wFrom, wTo, rowOut, rowW, base, 0.0);
      forall i | base <= i < base + |rowOut|
        ensures to[i] == from[i] && wTo[i] == wFrom[i]
      {
        var x := i - base;
        assert to[base + x] == from[base + x].Plus(rowOut[x].Times(0.0));
        var w := rowW[x];
        assert wTo[base + x] == wFrom[base + x] + w * 0.0;
      }
      SkipBands(acc, wsum, from, to, wFrom, wTo, rowOut, rowW, outH, y0, y1, lo + 1, hi);
    }
  }

  /** A source row, held in rowOut and rowW and spanning [y0, y1], spread over the output rows it touches. */
  method AddRow(y0: real, y1: real, outH: nat,
                rowOut: array<Pixel>, rowW: array<real>, acc: array<Pixel>, wsum: array<real>,
                ghost from: seq<Pixel>, ghost to: seq<Pixel>, ghost wFrom: seq<real>, ghost wTo: seq<real>)
    requires 0.0 <= y0 <= y1 <= outH as real
    requires acc != rowOut && wsum != rowW
    requires AllTake(from, to, wFrom, wTo, rowOut[..], rowW[..], outH, y0, y1)
    requires acc[..] == from && wsum[..] == wFrom
    modifies acc, wsum
    ensures acc[..] == to && wsum[..] == wTo
  {
    ghost var outs, ws := rowOut[..], rowW[..];
    var outW := rowOut.Length;
    var oy := y0.Floor;
    SkipBands(acc[..], wsum[..], from, to, wFrom, wTo, outs, ws, outH, y0, y1, 0, oy);
    while oy < outH && oy as real < y1
      invariant 0 <= oy <= outH
      invariant rowOut[..] == outs && rowW[..] == ws
      invariant Between(acc[..], from, to, RowStart(outW, oy))
      invariant Between(wsum[..], wFrom, wTo, RowStart(outW, oy))
      decreases outH - oy
    {
      var lo, hi := Max(y0, oy as real), Min(y1, (oy + 1) as real);
      if hi <= lo {
        SkipBands(acc[..], wsum[..], from, to, wFrom, wTo, outs, ws, outH, y0, y1, oy, oy + 1);
      } else {
        RowStartIsProduct(outW, oy);
        assert Takes(from, to, wFrom, wTo, outs, ws, RowStart(outW, oy), Shared(y0, y1, oy));
        AddBand(oy * outW, hi - lo, rowOut, rowW, acc, wsum, from, to, wFrom, wTo);
      }
      oy := oy + 1;
    }
    SkipBands(acc[..], wsum[..], from, to, wFrom, wTo, outs, ws, outH, y0, y1, oy, outH);
  }

  /** The buffers' next layer is what taking in source row `k` makes of the present one. */
  lemma {:induction false} LayersTake(img: Image, outW: nat, outH: nat, k: nat, rowOut: seq<Pixel>, rowW: seq<real>)
    requires img.Valid() && k < img.h
    requires |rowOut| == |rowW| == outW
    requires forall o :: 0 <= o < outW ==> rowOut[o] == RowSum(img.rows[k], outW, o, img.w)
    requires forall o :: 0 <= o < outW ==> rowW[o] == RowWeight(img.w, outW, o, img.w)
    ensures AllTake(Layer(img, outW, outH, k), Layer(img, outW, outH, k + 1),
                    Weights(img, outW, outH, k), Weights(img, outW, outH, k + 1),
                    rowOut, rowW, outH, Edge(k, img.h, outH), Edge(k + 1, img.h, outH))
  {
    var y0, y1 := Edge(k, img.h, outH), Edge(k + 1, img.h, outH);
    forall oy | 0 <= oy < outH
      ensures Takes(Layer(img, outW, outH, k), Layer(img, outW, outH, k + 1),
                    Weights(img, outW, outH, k), Weights(img, outW, outH, k + 1),
                    rowOut, rowW, RowStart(outW, oy), Shared(y0, y1, oy))
    {
      LayerTakes(img, outW, outH, k, rowOut, rowW, oy, Overlap(k, img.h, outH, oy));
    }
  }

  lemma {:induction false} LayerTakes(img: Image, outW: nat, outH: nat, k: nat, rowOut: seq<Pixel>, rowW: seq<real>,
                                      oy: nat, wt: real)
    requires img.Valid() && k < img.h && oy < outH
    requires wt == Overlap(k, img.h, outH, oy)
    requires |rowOut| == |rowW| == outW
    requires forall o :: 0 <= o < outW ==> rowOut[o] == RowSum(img.rows[k], outW, o, img.w)
    requires forall o :: 0 <= o < outW ==> rowW[o] == RowWeight(img.w, outW, o, img.w)
    ensures Takes(Layer(img, outW, outH, k), Layer(img, outW, outH, k + 1),
                  Weights(img, outW, outH, k), Weights(img, outW, outH, k + 1),
                  rowOut, rowW, RowStart(outW, oy), wt)
  {
    RowStartGrows(outW, oy, outH);
    forall x | 0 <= x < outW {
      LayerOne(img, outW, outH, k, x, oy, wt, rowOut[x], rowW[x]);
    }
  }

  lemma {:induction false} LayerOne(img: Image, outW: nat, outH: nat, k: nat, x: nat, y: nat, wt: real, p: Pixel,
                                    w: real)
    requires img.Valid() && k < img.h && x < outW && y < outH
    requires wt == Overlap(k, img.h, outH, y)
    requires p == RowSum(img.rows[k], outW, x, img.w) && w == RowWeight(img.w, outW, x, img.w)
    ensures RowStart(outW, y) + x < RowStart(outW, outH)
    ensures Layer(img, outW, outH, k + 1)[RowStart(outW, y) + x]
         == Layer(img, outW, outH, k)[RowStart(outW, y) + x].Plus(p.Times(wt))
    ensures Weights(img, outW, outH, k + 1)[RowStart(outW, y) + x]
         == Weights(img, outW, outH, k)[RowStart(outW, y) + x] + w * wt
  {
    LayerAt(img, outW, outH, k, x, y);
    LayerAt(img, outW, outH, k + 1, x, y);
    SumStep(img, outW, outH, k, x, y, wt, p, w);
  }

  lemma {:induction false} LayerAt(img: Image, outW: nat, outH: nat, k: nat, x: nat, y: nat)
    requires img.Valid() && k <= img.h && x < outW && y < outH
    ensures RowStart(outW, y) + x < RowStart(outW, outH)
    ensures Layer(img, outW, outH, k)[RowStart(outW, y) + x] == CellSum(img, outW, outH, x, y, k)
    ensures Weights(img, outW, outH, k)[RowStart(outW, y) + x] == CellWeight(img, outW, outH, x, y, k)
  {
    GridAt(outW, outH, (x, y) => CellSum(img, outW, outH, x, y, k), x, y);
    GridAt(outW, outH, (x, y) => CellWeight(img, outW, outH, x, y, k), x, y);
  }

  lemma {:induction false} SumStep(img: Image, outW: nat, outH: nat, k: nat, x: int, y: int, wt: real, p: Pixel,
                                   w: real)
    requires img.Valid() && k < img.h
    requires wt == Overlap(k, img.h, outH, y)
    requires p == RowSum(img.rows[k], outW, x, img.w) && w == RowWeight(img.w, outW, x, img.w)
    ensures CellSum(img, outW, outH, x, y, k + 1) == CellSum(img, outW, outH, x, y, k).Plus(p.Times(wt))
    ensures CellWeight(img, outW, outH, x, y, k + 1) == CellWeight(img, outW, outH, x, y, k) + w * wt
  {
    var cover, column := Cover(img.h, outH, y), ColumnOf(img, outW, x);
    assert cover(k) == wt && column(k) == p;
    assert ScaledBy(w, cover)(k) == w * wt;
    WeightedStep(k, column, cover);
  }

  lemma {:induction false} WeightedStep(k: nat, p: int -> Pixel, w: int -> real)
    ensures Weighted(k + 1, p, w) == Weighted(k, p, w).Plus(p(k).Times(w(k)))
  {
  }

  /** The closing division of each cell by the weight it accumulated. */
  method Normalise(acc: array<Pixel>, wsum: array<real>)
    requires acc.Length == wsum.Length
    modifies acc
    ensures forall i :: 0 <= i < acc.Length ==>
              acc[i] == if wsum[i] > 0.0 then old(acc[i]).Over(wsum[i]) else old(acc[i])
  {
    for i := 0 to wsum.Length
      invariant forall j :: 0 <= j < i ==>
                  acc[j] == if wsum[j] > 0.0 then old(acc[j]).Over(wsum[j]) else old(acc[j])
      invariant forall j :: i <= j < acc.Length ==> acc[j] == old(acc[j])
    {
      var ws := wsum[i];
      if ws > 0.0 {
        acc[i] := acc[i].Over(ws);
      }
    }
  }

  method TakeRow(img: Image, outW: nat, outH: nat, y: nat,
                 rowOut: array<Pixel>, rowW: array<real>, acc: array<Pixel>, wsum: array<real>)
    requires img.Valid() && y < img.h
    requires acc != rowOut && wsum != rowW
    requires rowOut.Length == rowW.Length == outW
    requires forall o :: 0 <= o < outW ==> rowOut[o] == RowSum(img.rows[y], outW, o, img.w)
    requires forall o :: 0 <= o < outW ==> rowW[o] == RowWeight(img.w, outW, o, img.w)
    requires acc[..] == Layer(img, outW, outH, y) && wsum[..] == Weights(img, outW, outH, y)
    modifies acc, wsum
    ensures acc[..] == Layer(img, outW, outH, y + 1) && wsum[..] == Weights(img, outW, outH, y + 1)
  {
    EdgeOrder(y, img.h, outH);
    EdgeOrder(y + 1, img.h, outH);
    LayersTake(img, outW, outH, y, rowOut[..], rowW[..]);
    AddRow(Edge(y, img.h, outH), Edge(y + 1, img.h, outH), outH, rowOut, rowW, acc, wsum,
           Layer(img, outW, outH, y), Layer(img, outW, outH, y + 1),
           Weights(img, outW, outH, y), Weights(img, outW, outH, y + 1));
  }

  /** For each source column, the output columns it covers and by how much. */
  method CoverageTable(n: nat, m: nat) returns (table: seq<seq<Span>>)
    requires n >= 1
    ensures |table| == n
    ensures forall i :: 0 <= i < n ==> Covers(table[i], i, n, m, m)
  {
    table := [];
    for x := 0 to n
      invariant |table| == x
      invariant forall i :: 0 <= i < x ==> Covers(table[i], i, n, m, m)
    {
      var spans := CoverageOf(x, n, m);
      table := table + [spans];
    }
  }

  /** The whole resampler: exact area averaging of `img` into outW by outH cells. */
  method AreaResample(img: Image, outW: nat, outH: nat) returns (acc: array<Pixel>)
    requires img.Valid()
    ensures fresh(acc)
    ensures IsArea(acc[..], img, outW, outH)
  {
    var colSpans := CoverageTable(img.w, outW);
    var cells := outH * outW;
    RowStartIsProduct(outW, outH);
    acc := new Pixel[cells](_ => BLANK);
    var wsum := new real[cells](_ => 0.0);
    var rowOut := new Pixel[outW];
    var rowW := new real[outW];
    FirstLayer(img, outW, outH);
    for y := 0 to img.h
      invariant fresh(acc) && fresh(wsum) && fresh(rowOut) && fresh(rowW)
      invariant acc != rowOut && wsum != rowW
      invariant acc[..] == Layer(img, outW, outH, y) && wsum[..] == Weights(img, outW, outH, y)
    {
      AccumulateRow(img.rows[y], outW, colSpans, rowOut, rowW);
      TakeRow(img, outW, outH, y, rowOut, rowW, acc, wsum);
    }
    LastLayer(img, outW, outH);
    ghost var sums, ones := acc[..], wsum[..];
    assert forall i :: 0 <= i < wsum.Length ==> wsum[i] == ones[i] == 1.0;
    Normalise(acc, wsum);
    assert acc[..] == sums;
  }

  /** A flat buffer holds the area average of `img` at every cell. */
  ghost predicate IsArea(cells: seq<Pixel>, img: Image, outW: nat, outH: nat)
    requires img.Valid()
  {
    && |cells| == outH * outW
    && forall x, y {:trigger Area(img, outW, outH, x, y)} :: 0 <= x < outW && 0 <= y < outH ==>
         0 <= Cell(outW, x, y) < |cells| && cells[Cell(outW, x, y)] == Area(img, outW, outH, x, y)
  }

  lemma {:induction false} FirstLayer(img: Image, outW: nat, outH: nat)
    requires img.Valid()
    ensures |Layer(img, outW, outH, 0)| == |Weights(img, outW, outH, 0)| == RowStart(outW, outH)
    ensures forall i :: 0 <= i < RowStart(outW, outH) ==> Layer(img, outW, outH, 0)[i] == BLANK
    ensures forall i :: 0 <= i < RowStart(outW, outH) ==> Weights(img, outW, outH, 0)[i] == 0.0
  {
    GridAll(outW, outH, (x, y) => CellSum(img, outW, outH, x, y, 0), BLANK);
    GridAll(outW, outH, (x, y) => CellWeight(img, outW, outH, x, y, 0), 0.0);
  }

  lemma {:induction false} LastLayer(img: Image, outW: nat, outH: nat)
    requires img.Valid()
    ensures IsArea(Layer(img, outW, outH, img.h), img, outW, outH)
    ensures forall i :: 0 <= i < RowStart(outW, outH) ==> Weights(img, outW, outH, img.h)[i] == 1.0
  {
    RowStartIsProduct(outW, outH);
    forall x, y | 0 <= x < outW && 0 <= y < outH
      ensures CellWeight(img, outW, outH, x, y, img.h) == 1.0
    {
      WeightIsOne(img, outW, outH, x, y);
    }
    GridAll(outW, outH, (x, y) => CellWeight(img, outW, outH, x, y, img.h), 1.0);
    forall x, y | 0 <= x < outW && 0 <= y < outH
      ensures 0 <= Cell(outW, x, y) < |Layer(img, outW, outH, img.h)|
      ensures Layer(img, outW, outH, img.h)[Cell(outW, x, y)] == Area(img, outW, outH, x, y)
    {
      RowStartIsProduct(outW, y);
      LayerAt(img, outW, outH, img.h, x, y);
    }
  }
}
