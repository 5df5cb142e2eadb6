/**
 What the resampler and the orientation step mean together: averaging commutes with turning the image,
 keeps every channel between the values it averages, spends every source pixel fully, and leaves the
 flattened bytes in range.
 */
module Fingerprint {
  import opened Sums
  import opened Resample
  import opened Orientation

  // ---- double sums -------------------------------------------------------------------------------------

  ghost function RowTotal(w: nat, f: (int, int) -> real, y: int): real {
    Sum(w, x => f(x, y))
  }

  ghost function Total(w: nat, h: nat, f: (int, int) -> real): real {
    Sum(h, y => RowTotal(w, f, y))
  }

  lemma {:induction false} TotalEq(w: nat, h: nat, f: (int, int) -> real, g: (int, int) -> real)
    requires forall x, y :: 0 <= x < w && 0 <= y < h ==> f(x, y) == g(x, y)
    ensures Total(w, h, f) == Total(w, h, g)
  {
    forall y | 0 <= y < h
      ensures RowTotal(w, f, y) == RowTotal(w, g, y)
    {
      SumEq(w, x => f(x, y), x => g(x, y));
    }
    SumEq(h, y => RowTotal(w, f, y), y => RowTotal(w, g, y));
  }

  lemma {:induction false} TotalMono(w: nat, h: nat, f: (int, int) -> real, g: (int, int) -> real)
    requires forall x, y :: 0 <= x < w && 0 <= y < h ==> f(x, y) <= g(x, y)
    ensures Total(w, h, f) <= Total(w, h, g)
  {
    forall y | 0 <= y < h
      ensures RowTotal(w, f, y) <= RowTotal(w, g, y)
    {
      SumMono(w, x => f(x, y), x => g(x, y));
    }
    SumMono(h, y => RowTotal(w, f, y), y => RowTotal(w, g, y));
  }

  lemma {:induction false} TotalMirrorsX(w: nat, h: nat, f: (int, int) -> real)
    ensures Total(w, h, (x, y) => f(w - 1 - x, y)) == Total(w, h, f)
  {
    var g := (x: int, y: int) => f(w - 1 - x, y);
    forall y | 0 <= y < h
      ensures RowTotal(w, g, y) == RowTotal(w, f, y)
    {
      var row := x => f(x, y);
      SumReverse(w, row);
      SumEq(w, x => g(x, y), x => row(w - 1 - x));
    }
    SumEq(h, y => RowTotal(w, g, y), y => RowTotal(w, f, y));
  }

  lemma {:induction false} TotalMirrorsY(w: nat, h: nat, f: (int, int) -> real)
    ensures Total(w, h, (x, y) => f(x, h - 1 - y)) == Total(w, h, f)
  {
    var g := (x: int, y: int) => f(x, h - 1 - y);
    var rows := y => RowTotal(w, f, y);
    SumReverse(h, rows);
    forall y | 0 <= y < h
      ensures RowTotal(w, g, y) == rows(h - 1 - y)
    {
      SumEq(w, x => g(x, y), x => f(x, h - 1 - y));
    }
    SumEq(h, y => RowTotal(w, g, y), y => rows(h - 1 - y));
  }

  lemma {:induction false} TotalSwaps(w: nat, h: nat, f: (int, int) -> real)
    ensures Total(h, w, (x, y) => f(y, x)) == Total(w, h, f)
  {
    var g := (x: int, y: int) => f(y, x);
    SumSwap(h, w, g);
    forall y | 0 <= y < h
      ensures RowTotal(w, f, y) == Sum(w, j => g(y, j))
    {
      SumEq(w, x => f(x, y), j => g(y, j));
    }
    SumEq(h, y => RowTotal(w, f, y), i => Sum(w, j => g(i, j)));
    forall y | 0 <= y < w
      ensures RowTotal(h, g, y) == Sum(h, i => g(i, y))
    {
      SumEq(h, x => g(x, y), i => g(i, y));
    }
    SumEq(w, y => RowTotal(h, g, y), j => Sum(h, i => g(i, j)));
  }

  // ---- one channel of the average ----------------------------------------------------------------------

  /** A value at each source cell, weighted along both axes. */
  ghost function Product(cx: int -> real, cy: int -> real, v: (int, int) -> real): (int, int) -> real {
    (x: int, y: int) => cx(x) * cy(y) * v(x, y)
  }

  ghost function Channelled(img: Image, c: Channel): (int, int) -> real
    requires img.Valid()
  {
    (x: int, y: int) => if 0 <= x < img.w && 0 <= y < img.h then img.At(x, y).Get(c) else 0.0
  }

  /** The area average of one channel at output cell (ox, oy). */
  ghost function Average(img: Image, c: Channel, outW: nat, outH: nat, ox: int, oy: int): real
    requires img.Valid()
  {
    Total(img.w, img.h, Product(Cover(img.w, outW, ox), Cover(img.h, outH, oy), Channelled(img, c)))
  }

  /** A weighted sum of pixels is, channel by channel, the sum of the weighted values. */
  lemma {:induction false} WeightedChannel(k: nat, p: int -> Pixel, w: int -> real, c: Channel, terms: int -> real)
    requires forall i :: 0 <= i < k ==> terms(i) == w(i) * p(i).Get(c)
    ensures Weighted(k, p, w).Get(c) == Sum(k, terms)
  {
    if k > 0 {
      WeightedChannel(k - 1, p, w, c, terms);
      PixelStep(Weighted(k - 1, p, w), p(k - 1), w(k - 1), c, terms(k - 1));
    }
  }

  lemma {:induction false} PixelStep(acc: Pixel, p: Pixel, w: real, c: Channel, term: real)
    requires term == w * p.Get(c)
    ensures acc.Plus(p.Times(w)).Get(c) == acc.Get(c) + term
  {
  }

  /** Row `y` of `v`, weighted. */
  ghost function Weighing(cx: int -> real, v: (int, int) -> real, y: int): int -> real {
    (x: int) => cx(x) * v(x, y)
  }

  /** Weighting rows of weighted sums is the double sum. */
  lemma {:induction false} NestedIsTotal(w: nat, h: nat, cx: int -> real, cy: int -> real, v: (int, int) -> real,
                                         rows: int -> real)
    requires forall y :: 0 <= y < h ==> rows(y) == Sum(w, Weighing(cx, v, y))
    ensures Sum(h, y => cy(y) * rows(y)) == Total(w, h, Product(cx, cy, v))
  {
    var f := Product(cx, cy, v);
    forall y | 0 <= y < h
      ensures cy(y) * rows(y) == RowTotal(w, f, y)
    {
      WeighedRow(w, cx, cy(y), v, f, y);
    }
    SumEq(h, y => cy(y) * rows(y), y => RowTotal(w, f, y));
  }

  lemma {:induction false} WeighedRow(w: nat, cx: int -> real, k: real, v: (int, int) -> real, f: (int, int) -> real,
                                      y: int)
    requires forall x :: 0 <= x < w ==> f(x, y) == cx(x) * k * v(x, y)
    ensures RowTotal(w, f, y) == k * Sum(w, Weighing(cx, v, y))
  {
    var row := Weighing(cx, v, y);
    SumScale(w, k, row);
    forall x | 0 <= x < w
      ensures f(x, y) == k * row(x)
    {
      Regroup(cx(x), k, v(x, y));
    }
    SumEq(w, x => f(x, y), x => k * row(x));
  }

  lemma {:induction false} Regroup(a: real, b: real, v: real)
    ensures a * b * v == b * (a * v)
    ensures a * b * v == b * a * v
  {
  }

  /** One channel of a source row's output column. */
  ghost function RowValues(img: Image, c: Channel, outW: nat, ox: int): int -> real
    requires img.Valid()
  {
    (y: int) => ColumnOf(img, outW, ox)(y).Get(c)
  }

  /** The program's row-then-column accumulation computes the double sum, channel by channel. */
  lemma {:induction false} AreaIsAverage(img: Image, c: Channel, outW: nat, outH: nat, ox: int, oy: int)
    requires img.Valid()
    ensures Area(img, outW, outH, ox, oy).Get(c) == Average(img, c, outW, outH, ox, oy)
  {
    forall y | 0 <= y < img.h
      ensures RowValues(img, c, outW, ox)(y) == Sum(img.w, Weighing(Cover(img.w, outW, ox), Channelled(img, c), y))
    {
      RowChannel(img, c, outW, ox, y);
    }
    WeightedRows(img.w, img.h, ColumnOf(img, outW, ox), Cover(img.w, outW, ox), Cover(img.h, outH, oy),
                 Channelled(img, c), c, RowValues(img, c, outW, ox));
  }

  lemma {:induction false} WeightedRows(w: nat, h: nat, column: int -> Pixel, cx: int -> real, cy: int -> real,
                     v: (int, int) -> real, c: Channel, rows: int -> real)
    requires forall y :: 0 <= y < h ==> rows(y) == column(y).Get(c)
    requires forall y :: 0 <= y < h ==> rows(y) == Sum(w, Weighing(cx, v, y))
    ensures Weighted(h, column, cy).Get(c) == Total(w, h, Product(cx, cy, v))
  {
    WeightedChannel(h, column, cy, c, y => cy(y) * rows(y));
    NestedIsTotal(w, h, cx, cy, v, rows);
  }

  lemma {:induction false} RowChannel(img: Image, c: Channel, outW: nat, ox: int, y: int)
    requires img.Valid()
    requires 0 <= y < img.h
    ensures ColumnOf(img, outW, ox)(y).Get(c) == Sum(img.w, Weighing(Cover(img.w, outW, ox), Channelled(img, c), y))
  {
    RowOfPixels(img.w, PixelsOf(img.rows[y]), Cover(img.w, outW, ox), Channelled(img, c), c, y);
  }

  lemma {:induction false} RowOfPixels(w: nat, row: int -> Pixel, cx: int -> real, v: (int, int) -> real, c: Channel,
                                       y: int)
    requires forall x :: 0 <= x < w ==> row(x).Get(c) == v(x, y)
    ensures Weighted(w, row, cx).Get(c) == Sum(w, Weighing(cx, v, y))
  {
    WeightedChannel(w, row, cx, c, Weighing(cx, v, y));
  }

  // ---- turning the image -------------------------------------------------------------------------------

  lemma {:induction false} ProductMirrorsX(w: nat, h: nat, cx: int -> real, cx': int -> real, cy: int -> real,
                        v: (int, int) -> real, v': (int, int) -> real)
    requires forall x :: 0 <= x < w ==> cx'(x) == cx(w - 1 - x)
    requires forall x, y :: 0 <= x < w && 0 <= y < h ==> v'(x, y) == v(w - 1 - x, y)
    ensures Total(w, h, Product(cx', cy, v')) == Total(w, h, Product(cx, cy, v))
  {
    var f := Product(cx, cy, v);
    TotalMirrorsX(w, h, f);
    TotalEq(w, h, Product(cx', cy, v'), (x, y) => f(w - 1 - x, y));
  }

  lemma {:induction false} ProductMirrorsY(w: nat, h: nat, cx: int -> real, cy: int -> real, cy': int -> real,
                        v: (int, int) -> real, v': (int, int) -> real)
    requires forall y :: 0 <= y < h ==> cy'(y) == cy(h - 1 - y)
    requires forall x, y :: 0 <= x < w && 0 <= y < h ==> v'(x, y) == v(x, h - 1 - y)
    ensures Total(w, h, Product(cx, cy', v')) == Total(w, h, Product(cx, cy, v))
  {
    var f := Product(cx, cy, v);
    TotalMirrorsY(w, h, f);
    TotalEq(w, h, Product(cx, cy', v'), (x, y) => f(x, h - 1 - y));
  }

  lemma {:induction false} ProductSwaps(w: nat, h: nat, cx: int -> real, cy: int -> real, v: (int, int) -> real,
                                        v': (int, int) -> real)
    requires forall x, y :: 0 <= x < h && 0 <= y < w ==> v'(x, y) == v(y, x)
    ensures Total(h, w, Product(cy, cx, v')) == Total(w, h, Product(cx, cy, v))
  {
    var f, g := Product(cx, cy, v), Product(cy, cx, v');
    TotalSwaps(w, h, f);
    forall x, y | 0 <= x < h && 0 <= y < w
      ensures g(x, y) == f(y, x)
    {
      Regroup(cy(x), cx(y), v(y, x));
    }
    TotalEq(h, w, g, (x, y) => f(y, x));
  }

  ghost predicate MirroredX(a: Image, b: Image)
    requires a.Valid() && b.Valid()
  {
    && a.w == b.w && a.h == b.h
    && forall x, y :: 0 <= x < a.w && 0 <= y < a.h ==> a.At(x, y) == b.At(a.w - 1 - x, y)
  }

  ghost predicate MirroredY(a: Image, b: Image)
    requires a.Valid() && b.Valid()
  {
    && a.w == b.w && a.h == b.h
    && forall x, y :: 0 <= x < a.w && 0 <= y < a.h ==> a.At(x, y) == b.At(x, a.h - 1 - y)
  }

  ghost predicate Transposed(a: Image, b: Image)
    requires a.Valid() && b.Valid()
  {
    && a.w == b.h && a.h == b.w
    && forall x, y :: 0 <= x < a.w && 0 <= y < a.h ==> a.At(x, y) == b.At(y, x)
  }

  lemma {:induction false} CoverMirrors(n: nat, m: nat, o: int, mirrored: int)
    requires n >= 1
    requires mirrored == m - 1 - o
    ensures forall i :: 0 <= i < n ==> Cover(n, m, mirrored)(i) == Cover(n, m, o)(n - 1 - i)
  {
    forall i | 0 <= i < n
      ensures Overlap(i, n, m, mirrored) == Overlap(n - 1 - i, n, m, o)
    {
      CoverageMirrors(n - 1 - i, n, m, o);
    }
  }

  lemma {:induction false} MirrorXCommutes(a: Image, b: Image, c: Channel, outW: nat, outH: nat, ox: int, oy: int)
    requires a.Valid() && b.Valid() && MirroredX(a, b)
    ensures Average(a, c, outW, outH, outW - 1 - ox, oy) == Average(b, c, outW, outH, ox, oy)
  {
    CoverMirrors(b.w, outW, ox, outW - 1 - ox);
    ProductMirrorsX(b.w, b.h, Cover(b.w, outW, ox), Cover(b.w, outW, outW - 1 - ox), Cover(b.h, outH, oy),
                    Channelled(b, c), Channelled(a, c));
  }

  lemma {:induction false} MirrorYCommutes(a: Image, b: Image, c: Channel, outW: nat, outH: nat, ox: int, oy: int)
    requires a.Valid() && b.Valid() && MirroredY(a, b)
    ensures Average(a, c, outW, outH, ox, outH - 1 - oy) == Average(b, c, outW, outH, ox, oy)
  {
    CoverMirrors(b.h, outH, oy, outH - 1 - oy);
    ProductMirrorsY(b.w, b.h, Cover(b.w, outW, ox), Cover(b.h, outH, oy), Cover(b.h, outH, outH - 1 - oy),
                    Channelled(b, c), Channelled(a, c));
  }

  lemma {:induction false} TransposeCommutes(a: Image, b: Image, c: Channel, outW: nat, outH: nat, ox: int, oy: int)
    requires a.Valid() && b.Valid() && Transposed(a, b)
    ensures Average(a, c, outH, outW, oy, ox) == Average(b, c, outW, outH, ox, oy)
  {
    ProductSwaps(b.w, b.h, Cover(b.w, outW, ox), Cover(b.h, outH, oy), Channelled(b, c), Channelled(a, c));
  }

  function FlipX(img: Image): (r: Image)
    requires img.Valid()
    ensures r.Valid() && MirroredX(r, img)
  {
    Image(img.w, img.h, seq(img.h, y requires 0 <= y < img.h =>
      seq(img.w, x requires 0 <= x < img.w => img.At(img.w - 1 - x, y))))
  }

  function FlipY(img: Image): (r: Image)
    requires img.Valid()
    ensures r.Valid() && MirroredY(r, img)
  {
    Image(img.w, img.h, seq(img.h, y requires 0 <= y < img.h => img.rows[img.h - 1 - y]))
  }

  function Transpose(img: Image): (r: Image)
    requires img.Valid()
    ensures r.Valid() && Transposed(r, img)
  {
    Image(img.h, img.w, seq(img.w, y requires 0 <= y < img.w => seq(img.h, x requires 0 <= x < img.h => img.At(y, x))))
  }

  predicate FlipsX(o: int) {
    RowZeroSide(o) == Right || ColumnZeroSide(o) == Right
  }

  predicate FlipsY(o: int) {
    RowZeroSide(o) == Bottom || ColumnZeroSide(o) == Bottom
  }

  /** A display orientation is a transposition, or none, followed by mirrorings. */
  function Turned(img: Image, swap: bool, flipX: bool, flipY: bool): (r: Image)
    requires img.Valid()
    ensures r.Valid()
    ensures r.w == (if swap then img.h else img.w) && r.h == (if swap then img.w else img.h)
  {
    FlippedY(FlippedX(Swapped(img, swap), flipX), flipY)
  }

  function Swapped(img: Image, swap: bool): (r: Image)
    requires img.Valid()
    ensures r.Valid()
    ensures r.w == (if swap then img.h else img.w) && r.h == (if swap then img.w else img.h)
  {
    if swap then Transpose(img) else img
  }

  function FlippedX(img: Image, flip: bool): (r: Image)
    requires img.Valid()
    ensures r.Valid() && r.w == img.w && r.h == img.h
  {
    if flip then FlipX(img) else img
  }

  function FlippedY(img: Image, flip: bool): (r: Image)
    requires img.Valid()
    ensures r.Valid() && r.w == img.w && r.h == img.h
  {
    if flip then FlipY(img) else img
  }

  /** Where a stored cell goes when the image is transposed, or not, and then mirrored. */
  function TurnPlace(swap: bool, flipX: bool, flipY: bool, w: nat, h: nat, sx: int, sy: int): (int, int) {
    var (x, y) := if swap then (sy, sx) else (sx, sy);
    (if flipX then (if swap then h else w) - 1 - x else x,
     if flipY then (if swap then w else h) - 1 - y else y)
  }

  lemma {:induction false} SwappedAt(img: Image, swap: bool, x: int, y: int)
    requires img.Valid() && 0 <= x < Swapped(img, swap).w && 0 <= y < Swapped(img, swap).h
    ensures var (sx, sy) := if swap then (y, x) else (x, y);
            0 <= sx < img.w && 0 <= sy < img.h && Swapped(img, swap).At(x, y) == img.At(sx, sy)
  {
  }

  lemma {:induction false} FlippedXAt(img: Image, flip: bool, x: int, y: int)
    requires img.Valid() && 0 <= x < img.w && 0 <= y < img.h
    ensures FlippedX(img, flip).At(x, y) == img.At(if flip then img.w - 1 - x else x, y)
  {
  }

  lemma {:induction false} FlippedYAt(img: Image, flip: bool, x: int, y: int)
    requires img.Valid() && 0 <= x < img.w && 0 <= y < img.h
    ensures FlippedY(img, flip).At(x, y) == img.At(x, if flip then img.h - 1 - y else y)
  {
  }

  /** The stored cell that a turned image shows at (dx, dy). */
  function TurnSource(swap: bool, flipX: bool, flipY: bool, w: nat, h: nat, dx: int, dy: int): (int, int) {
    var x := if flipX then (if swap then h else w) - 1 - dx else dx;
    var y := if flipY then (if swap then w else h) - 1 - dy else dy;
    if swap then (y, x) else (x, y)
  }

  lemma {:induction false} TurnedAt(img: Image, swap: bool, flipX: bool, flipY: bool, dx: int, dy: int)
    requires img.Valid()
    requires 0 <= dx < Turned(img, swap, flipX, flipY).w && 0 <= dy < Turned(img, swap, flipX, flipY).h
    ensures var (sx, sy) := TurnSource(swap, flipX, flipY, img.w, img.h, dx, dy);
            && 0 <= sx < img.w && 0 <= sy < img.h
            && Turned(img, swap, flipX, flipY).At(dx, dy) == img.At(sx, sy)
  {
    var a := Swapped(img, swap);
    var x, y := if flipX then a.w - 1 - dx else dx, if flipY then a.h - 1 - dy else dy;
    FlippedYAt(FlippedX(a, flipX), flipY, dx, dy);
    FlippedXAt(a, flipX, dx, y);
    SwappedAt(img, swap, x, y);
  }

  lemma {:induction false} TurnSourcePlaces(swap: bool, flipX: bool, flipY: bool, w: nat, h: nat, dx: int, dy: int)
    ensures var (sx, sy) := TurnSource(swap, flipX, flipY, w, h, dx, dy);
            TurnPlace(swap, flipX, flipY, w, h, sx, sy) == (dx, dy)
  {
  }

  /** The displayed place of a stored cell, in terms of the transposition and the mirrorings. */
  lemma {:induction false} PlaceByFlags(o: int, w: nat, h: nat, sx: int, sy: int)
    ensures Place(o, w, h, sx, sy) == TurnPlace(Swaps(o), FlipsX(o), FlipsY(o), w, h, sx, sy)
  {
  }

  lemma {:induction false} DisplaysAt(shown: Image, stored: Image, o: int, sx: int, sy: int)
    requires shown.Valid() && stored.Valid() && Displays(shown, stored, o)
    requires 0 <= sx < stored.w && 0 <= sy < stored.h
    ensures var (dx, dy) := Place(o, stored.w, stored.h, sx, sy);
            0 <= dx < shown.w && 0 <= dy < shown.h && shown.At(dx, dy) == stored.At(sx, sy)
  {
  }

  lemma {:induction false} ShownCell(shown: Image, stored: Image, o: int, swap: bool, flipX: bool, flipY: bool,
                                     dx: int, dy: int)
    requires shown.Valid() && stored.Valid() && Displays(shown, stored, o)
    requires swap == Swaps(o) && flipX == FlipsX(o) && flipY == FlipsY(o)
    requires 0 <= dx < shown.w && 0 <= dy < shown.h
    ensures var t := Turned(stored, swap, flipX, flipY);
            dx < t.w && dy < t.h && shown.At(dx, dy) == t.At(dx, dy)
  {
    var (sx, sy) := TurnSource(swap, flipX, flipY, stored.w, stored.h, dx, dy);
    TurnedAt(stored, swap, flipX, flipY, dx, dy);
    TurnSourcePlaces(swap, flipX, flipY, stored.w, stored.h, dx, dy);
    PlaceByFlags(o, stored.w, stored.h, sx, sy);
    DisplaysAt(shown, stored, o, sx, sy);
    assert Place(o, stored.w, stored.h, sx, sy) == (dx, dy);
  }

  lemma {:induction false} DisplaysIsTurned(shown: Image, stored: Image, o: int)
    requires shown.Valid() && stored.Valid() && Displays(shown, stored, o)
    ensures shown == Turned(stored, Swaps(o), FlipsX(o), FlipsY(o))
  {
    var t := Turned(stored, Swaps(o), FlipsX(o), FlipsY(o));
    assert t.w == shown.w && t.h == shown.h;
    forall dy | 0 <= dy < t.h
      ensures shown.rows[dy] == t.rows[dy]
    {
      forall dx | 0 <= dx < t.w
        ensures shown.rows[dy][dx] == t.rows[dy][dx]
      {
        ShownCell(shown, stored, o, Swaps(o), FlipsX(o), FlipsY(o), dx, dy);
      }
    }
  }

  lemma {:induction false} PlaceHasSource(swap: bool, flipX: bool, flipY: bool, w: nat, h: nat, sx: int, sy: int)
    requires 0 <= sx < w && 0 <= sy < h
    ensures var (dx, dy) := TurnPlace(swap, flipX, flipY, w, h, sx, sy);
            && 0 <= dx < (if swap then h else w)
            && 0 <= dy < (if swap then w else h)
            && TurnSource(swap, flipX, flipY, w, h, dx, dy) == (sx, sy)
  {
  }

  lemma {:induction false} TurnedShows(img: Image, swap: bool, flipX: bool, flipY: bool, sx: int, sy: int)
    requires img.Valid() && 0 <= sx < img.w && 0 <= sy < img.h
    ensures var (dx, dy) := TurnPlace(swap, flipX, flipY, img.w, img.h, sx, sy);
            var t := Turned(img, swap, flipX, flipY);
            0 <= dx < t.w && 0 <= dy < t.h && t.At(dx, dy) == img.At(sx, sy)
  {
    var (dx, dy) := TurnPlace(swap, flipX, flipY, img.w, img.h, sx, sy);
    PlaceHasSource(swap, flipX, flipY, img.w, img.h, sx, sy);
    TurnedAt(img, swap, flipX, flipY, dx, dy);
  }

  /** Every stored image is displayed in exactly one way: the orientation's transposition and mirrorings. */
  lemma {:induction false} DisplayIsTurned(shown: Image, stored: Image, o: int)
    requires shown.Valid() && stored.Valid()
    ensures Displays(shown, stored, o) <==> shown == Turned(stored, Swaps(o), FlipsX(o), FlipsY(o))
  {
    if Displays(shown, stored, o) {
      DisplaysIsTurned(shown, stored, o);
    }
    if shown == Turned(stored, Swaps(o), FlipsX(o), FlipsY(o)) {
      forall sx, sy | 0 <= sx < stored.w && 0 <= sy < stored.h
        ensures var (dx, dy) := Place(o, stored.w, stored.h, sx, sy);
                0 <= dx < shown.w && 0 <= dy < shown.h && shown.At(dx, dy) == stored.At(sx, sy)
      {
        PlaceByFlags(o, stored.w, stored.h, sx, sy);
        TurnedShows(stored, Swaps(o), FlipsX(o), FlipsY(o), sx, sy);
      }
    }
  }

  lemma {:induction false} SamePixel(p: Pixel, q: Pixel)
    requires forall c: Channel :: p.Get(c) == q.Get(c)
    ensures p == q
  {
    assert p.Get(Red) == q.Get(Red) && p.Get(Green) == q.Get(Green);
    assert p.Get(Blue) == q.Get(Blue) && p.Get(Alpha) == q.Get(Alpha);
  }

  /** Turning a square average is averaging the turned image: the two steps commute. */
  lemma {:induction false} OrientationCommutes(stored: Image, shown: Image, o: int, n: nat, sx: int, sy: int)
    requires stored.Valid() && shown.Valid()
    requires Displays(shown, stored, o)
    ensures var (dx, dy) := Place(o, n, n, sx, sy);
            Area(shown, n, n, dx, dy) == Area(stored, n, n, sx, sy)
  {
    var (dx, dy) := Place(o, n, n, sx, sy);
    DisplaysIsTurned(shown, stored, o);
    forall c: Channel
      ensures Area(shown, n, n, dx, dy).Get(c) == Area(stored, n, n, sx, sy).Get(c)
    {
      AreaIsAverage(shown, c, n, n, dx, dy);
      AreaIsAverage(stored, c, n, n, sx, sy);
      PlaceByFlags(o, n, n, sx, sy);
      TurnedAverage(stored, Swaps(o), FlipsX(o), FlipsY(o), c, n, sx, sy);
    }
    SamePixel(Area(shown, n, n, dx, dy), Area(stored, n, n, sx, sy));
  }

  lemma {:induction false} FlipXCommutes(flip: bool, img: Image, c: Channel, n: nat, x: int, y: int)
    requires img.Valid()
    ensures Average(FlippedX(img, flip), c, n, n, if flip then n - 1 - x else x, y) == Average(img, c, n, n, x, y)
  {
    if flip {
      MirrorXCommutes(FlipX(img), img, c, n, n, x, y);
    }
  }

  lemma {:induction false} FlipYCommutes(flip: bool, img: Image, c: Channel, n: nat, x: int, y: int)
    requires img.Valid()
    ensures Average(FlippedY(img, flip), c, n, n, x, if flip then n - 1 - y else y) == Average(img, c, n, n, x, y)
  {
    if flip {
      MirrorYCommutes(FlipY(img), img, c, n, n, x, y);
    }
  }

  lemma {:induction false} SwapCommutes(swap: bool, img: Image, c: Channel, n: nat, x: int, y: int)
    requires img.Valid()
    ensures Average(Swapped(img, swap), c, n, n, if swap then y else x, if swap then x else y)
         == Average(img, c, n, n, x, y)
  {
    if swap {
      TransposeCommutes(Transpose(img), img, c, n, n, x, y);
    }
  }

  lemma {:induction false} TurnedAverage(img: Image, swap: bool, flipX: bool, flipY: bool, c: Channel, n: nat,
                                         sx: int, sy: int)
    requires img.Valid()
    ensures var (dx, dy) := TurnPlace(swap, flipX, flipY, n, n, sx, sy);
            Average(Turned(img, swap, flipX, flipY), c, n, n, dx, dy) == Average(img, c, n, n, sx, sy)
  {
    var a := Swapped(img, swap);
    var x, y := if swap then sy else sx, if swap then sx else sy;
    SwapCommutes(swap, img, c, n, sx, sy);
    FlipXCommutes(flipX, a, c, n, x, y);
    FlipYCommutes(flipY, FlippedX(a, flipX), c, n, if flipX then n - 1 - x else x, y);
  }

  /** The pipeline's two steps: the oriented buffer is the area average of the displayed image. */
  method ResampleOriented(img: Image, ghost shown: Image, n: nat, orient: int) returns (prem: array<Pixel>)
    requires img.Valid() && shown.Valid()
    requires Displays(shown, img, orient)
    ensures IsArea(prem[..], shown, n, n)
  {
    var stored := AreaResample(img, n, n);
    prem := ApplyOrientation(stored, n, orient);
    forall dx, dy | 0 <= dx < n && 0 <= dy < n
      ensures 0 <= Cell(n, dx, dy) < prem.Length && prem[Cell(n, dx, dy)] == Area(shown, n, n, dx, dy)
    {
      PlaceIsOnto(orient, n, dx, dy);
      var (sx, sy) := Source(orient, n, dx, dy);
      OrientationCommutes(img, shown, orient, n, sx, sy);
    }
  }

  /** Every displayed cell is the place of one stored cell. */
  lemma {:induction false} PlaceIsOnto(o: int, n: nat, dx: int, dy: int)
    requires 0 <= dx < n && 0 <= dy < n
    ensures var (sx, sy) := Source(o, n, dx, dy);
            0 <= sx < n && 0 <= sy < n && Place(o, n, n, sx, sy) == (dx, dy)
  {
  }
}
