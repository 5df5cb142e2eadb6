/** What area averaging keeps: bounds, the order of colour below alpha, and the total. */
module Averages {
  import opened Sums
  import opened Resample
  import opened Fingerprint

  // ---- bounds ------------------------------------------------------------------------------------------

  lemma {:induction false} CoverIsPositive(n: nat, m: nat, o: int)
    requires n >= 1
    ensures forall i :: Cover(n, m, o)(i) >= 0.0
  {
  }

  lemma {:induction false} ConstantSum(n: nat, c: int -> real, k: real)
    ensures Sum(n, i => c(i) * k) == Sum(n, c) * k
  {
    if n > 0 {
      ConstantSum(n - 1, c, k);
    }
  }

  lemma {:induction false} ConstantMean(n: nat, c: int -> real, k: real, terms: int -> real)
    requires Sum(n, c) == 1.0
    requires forall i :: 0 <= i < n ==> terms(i) == c(i) * k
    ensures Sum(n, terms) == k
  {
    ConstantSum(n, c, k);
    SumEq(n, terms, i => c(i) * k);
  }

  /** A constant image averages to the constant. */
  lemma {:induction false} ConstantTotal(w: nat, h: nat, cx: int -> real, cy: int -> real, k: real)
    requires Sum(w, cx) == 1.0 && Sum(h, cy) == 1.0
    ensures Total(w, h, Product(cx, cy, (x, y) => k)) == k
  {
    var v, rows := (x: int, y: int) => k, (y: int) => k;
    forall y | 0 <= y < h
      ensures rows(y) == Sum(w, Weighing(cx, v, y))
    {
      ConstantMean(w, cx, k, Weighing(cx, v, y));
    }
    NestedIsTotal(w, h, cx, cy, v, rows);
    ConstantMean(h, cy, k, y => cy(y) * rows(y));
  }

  lemma {:induction false} ProductMono(w: nat, h: nat, cx: int -> real, cy: int -> real, u: (int, int) -> real,
                                       v: (int, int) -> real)
    requires forall i :: cx(i) >= 0.0
    requires forall i :: cy(i) >= 0.0
    requires forall x, y :: 0 <= x < w && 0 <= y < h ==> u(x, y) <= v(x, y)
    ensures Total(w, h, Product(cx, cy, u)) <= Total(w, h, Product(cx, cy, v))
  {
    var f, g := Product(cx, cy, u), Product(cx, cy, v);
    forall x, y | 0 <= x < w && 0 <= y < h
      ensures f(x, y) <= g(x, y)
    {
      MulOrder(cx(x), cy(y), u(x, y), v(x, y));
      assert f(x, y) == cx(x) * cy(y) * u(x, y) && g(x, y) == cx(x) * cy(y) * v(x, y);
    }
    TotalMono(w, h, f, g);
  }

  lemma {:induction false} MulOrder(a: real, b: real, u: real, v: real)
    requires a >= 0.0 && b >= 0.0 && u <= v
    ensures a * b * u <= a * b * v
  {
    var ab := a * b;
    assert ab >= 0.0;
    assert ab * (v - u) >= 0.0;
    assert ab * (v - u) == ab * v - ab * u;
  }

  /** Every channel stays between the least and the greatest source value: the average is convex. */
  lemma {:induction false} AverageIsBetween(img: Image, c: Channel, lo: real, hi: real, outW: nat, outH: nat, ox: int,
                                            oy: int)
    requires img.Valid()
    requires 0 <= ox < outW && 0 <= oy < outH
    requires forall x, y :: 0 <= x < img.w && 0 <= y < img.h ==> lo <= img.At(x, y).Get(c) <= hi
    ensures lo <= Area(img, outW, outH, ox, oy).Get(c) <= hi
  {
    var cx, cy, v := Cover(img.w, outW, ox), Cover(img.h, outH, oy), Channelled(img, c);
    AreaIsAverage(img, c, outW, outH, ox, oy);
    CoverageIsOne(img.w, outW, ox);
    CoverageIsOne(img.h, outH, oy);
    CoverIsPositive(img.w, outW, ox);
    CoverIsPositive(img.h, outH, oy);
    ConstantTotal(img.w, img.h, cx, cy, lo);
    ConstantTotal(img.w, img.h, cx, cy, hi);
    ProductMono(img.w, img.h, cx, cy, (x, y) => lo, v);
    ProductMono(img.w, img.h, cx, cy, v, (x, y) => hi);
  }

  /** One channel that is nowhere above another is nowhere above it after averaging. */
  lemma {:induction false} AverageKeepsOrder(img: Image, c: Channel, d: Channel, outW: nat, outH: nat, ox: int, oy: int)
    requires img.Valid()
    requires forall x, y :: 0 <= x < img.w && 0 <= y < img.h ==> img.At(x, y).Get(c) <= img.At(x, y).Get(d)
    ensures Area(img, outW, outH, ox, oy).Get(c) <= Area(img, outW, outH, ox, oy).Get(d)
  {
    AreaIsAverage(img, c, outW, outH, ox, oy);
    AreaIsAverage(img, d, outW, outH, ox, oy);
    CoverIsPositive(img.w, outW, ox);
    CoverIsPositive(img.h, outH, oy);
    ProductMono(img.w, img.h, Cover(img.w, outW, ox), Cover(img.h, outH, oy), Channelled(img, c), Channelled(img, d));
  }

  // ---- conservation ------------------------------------------------------------------------------------

  ghost function Row(f: (int, int) -> real, o: int): int -> real {
    (i: int) => f(o, i)
  }

  ghost function Column(f: (int, int) -> real, i: int): int -> real {
    (o: int) => f(o, i)
  }

  ghost function Times(a: int -> real, b: int -> real): int -> real {
    (i: int) => a(i) * b(i)
  }

  ghost function Dot(n: nat, a: int -> real, b: int -> real): real {
    Sum(n, Times(a, b))
  }

  lemma {:induction false} DotEq(n: nat, a: int -> real, b: int -> real, a': int -> real)
    requires forall i :: 0 <= i < n ==> a(i) == a'(i)
    ensures Dot(n, a, b) == Dot(n, a', b)
  {
    SumEq(n, Times(a, b), Times(a', b));
  }

  lemma {:induction false} DotOfRow(h: nat, cy: int -> real, f: (int, int) -> real, o: int, r: int -> real)
    requires forall j :: 0 <= j < h ==> r(j) == cy(j) * f(o, j)
    ensures Dot(h, cy, Row(f, o)) == Sum(h, r)
  {
    SumEq(h, Times(cy, Row(f, o)), r);
  }

  lemma {:induction false} ColumnScaled(m: nat, k: real, f: (int, int) -> real, y: int, r: int -> real)
    requires forall o :: 0 <= o < m ==> r(o) == k * f(o, y)
    ensures Sum(m, r) == k * Sum(m, Column(f, y))
  {
    SumScale(m, k, Column(f, y));
    SumEq(m, r, i => k * Column(f, y)(i));
  }

  lemma {:induction false} Distribute(s: real, rest: real, last: real, total: real)
    requires total == rest + last
    ensures s * rest + s * last == s * total
  {
  }

  lemma {:induction false} ScaledTotal(n: nat, s: real, r: int -> real, scaled: int -> real, total: real)
    requires forall i :: 0 <= i < n ==> scaled(i) == s * r(i)
    requires total == Sum(n, r)
    ensures Sum(n, scaled) == s * total
  {
    if n > 0 {
      var rest, last := Sum(n - 1, r), r(n - 1);
      ScaledTotal(n - 1, s, r, scaled, rest);
      Distribute(s, rest, last, total);
    }
  }

  lemma {:induction false} ScaledByAt(s: real, f: int -> real, y: int, value: real)
    requires value == f(y)
    ensures ScaledBy(s, f)(y) == s * value
  {
  }

  lemma {:induction false} TotalScaledBy(n: nat, s: real, f: int -> real, total: real)
    requires total == Sum(n, f)
    ensures Sum(n, ScaledBy(s, f)) == s * total
  {
    ScaledTotal(n, s, f, ScaledBy(s, f), total);
  }

  lemma {:induction false} ColumnTimes(m: nat, f: (int, int) -> real, i: int, k: real, r: int -> real, s: real)
    requires forall o :: 0 <= o < m ==> r(o) == f(o, i) * k
    requires s == Sum(m, Column(f, i))
    ensures Sum(m, r) == s * k
  {
    SumScale(m, k, Column(f, i));
    SumEq(m, r, j => k * Column(f, i)(j));
  }

  ghost function Cells(cover: (int, int) -> real, r: int -> real): (int, int) -> real {
    (o: int, i: int) => cover(o, i) * r(i)
  }

  lemma {:induction false} RowOfCells(n: nat, cover: (int, int) -> real, r: int -> real, o: int)
    ensures Dot(n, Row(cover, o), r) == Sum(n, j => Cells(cover, r)(o, j))
  {
    var g := Cells(cover, r);
    forall j | 0 <= j < n
      ensures Times(Row(cover, o), r)(j) == g(o, j)
    {
      assert g(o, j) == cover(o, j) * r(j);
    }
    SumEq(n, Times(Row(cover, o), r), j => g(o, j));
  }

  lemma {:induction false} ColumnOfCells(m: nat, cover: (int, int) -> real, r: int -> real, i: int, s: real,
                                         value: real)
    requires s == Sum(m, Column(cover, i)) && value == r(i)
    ensures Sum(m, o => Cells(cover, r)(o, i)) == s * value
  {
    var g := Cells(cover, r);
    forall o | 0 <= o < m
      ensures g(o, i) == cover(o, i) * value
    {
      assert g(o, i) == cover(o, i) * r(i);
    }
    ColumnTimes(m, cover, i, value, o => g(o, i), s);
  }

  /** Terms weighted by a cover that spends each of them to length `s`, summed over the whole cover. */
  lemma {:induction false} SpentTotal(n: nat, m: nat, cover: (int, int) -> real, s: real, r: int -> real,
                                      dots: int -> real, total: real)
    requires total == Sum(n, r)
    requires forall i :: 0 <= i < n ==> Sum(m, Column(cover, i)) == s
    requires forall o :: 0 <= o < m ==> dots(o) == Dot(n, Row(cover, o), r)
    ensures Sum(m, dots) == s * total
  {
    var g := Cells(cover, r);
    forall o | 0 <= o < m
      ensures dots(o) == Sum(n, j => g(o, j))
    {
      RowOfCells(n, cover, r, o);
    }
    SumEq(m, dots, i => Sum(n, j => g(i, j)));
    SumSwap(m, n, g);
    var spent := j => Sum(m, i => g(i, j));
    forall i | 0 <= i < n
      ensures spent(i) == ScaledBy(s, r)(i)
    {
      ColumnOfCells(m, cover, r, i, s, r(i));
      ScaledByAt(s, r, i, r(i));
    }
    SumEq(n, spent, ScaledBy(s, r));
    TotalScaledBy(n, s, r, total);
  }

  /** `s` is the length a source cell takes up on an axis of `m` output cells: m / n of them. */
  ghost predicate IsStep(s: real, n: nat, m: nat)
    requires n >= 1
  {
    forall i, j {:trigger Edge(i, n, m), Edge(j, n, m)} :: j == i + 1 ==> Edge(j, n, m) == Edge(i, n, m) + s
  }

  lemma {:induction false} RatioIsStep(n: nat, m: nat, s: real)
    requires n >= 1 && s * n as real == m as real
    ensures IsStep(s, n, m)
  {
    Quotient(s, n as real, m as real);
    forall i, j | j == i + 1
      ensures Edge(j, n, m) == Edge(i, n, m) + s
    {
      EdgeOrder(i, n, m);
    }
  }

  lemma {:induction false} Quotient(s: real, n: real, m: real)
    requires n > 0.0 && s * n == m
    ensures s == m / n
  {
  }

  /** The coverage of one axis, by output cell and source cell. */
  ghost function AxisCover(n: nat, m: nat): (int, int) -> real
    requires n >= 1
  {
    (o: int, i: int) => Overlap(i, n, m, o)
  }

  lemma {:induction false} AxisRow(n: nat, m: nat, r: int -> real, o: int)
    requires n >= 1
    ensures Dot(n, Row(AxisCover(n, m), o), r) == Dot(n, Cover(n, m, o), r)
  {
    DotEq(n, Row(AxisCover(n, m), o), r, Cover(n, m, o));
  }

  lemma {:induction false} AxisColumn(n: nat, m: nat, i: int, s: real)
    requires n >= 1
    requires 0 <= i < n
    requires IsStep(s, n, m)
    ensures Sum(m, Column(AxisCover(n, m), i)) == s
  {
    CoverageIsSpent(n, m, i);
    assert Edge(i + 1, n, m) == Edge(i, n, m) + s;
    SumEq(m, Column(AxisCover(n, m), i), o => Overlap(i, n, m, o));
  }

  /** Averaging along one axis scales the total by the ratio of the sizes. */
  lemma {:induction false} AxisIsSpent(n: nat, m: nat, s: real, r: int -> real, dots: int -> real, total: real)
    requires n >= 1
    requires IsStep(s, n, m)
    requires total == Sum(n, r)
    requires forall o {:trigger Cover(n, m, o)} :: 0 <= o < m ==> dots(o) == Dot(n, Cover(n, m, o), r)
    ensures Sum(m, dots) == s * total
  {
    var cover := AxisCover(n, m);
    forall o | 0 <= o < m
      ensures dots(o) == Dot(n, Row(cover, o), r)
    {
      AxisRow(n, m, r, o);
    }
    forall i | 0 <= i < n
      ensures Sum(m, Column(cover, i)) == s
    {
      AxisColumn(n, m, i, s);
    }
    SpentTotal(n, m, cover, s, r, dots, total);
  }

  ghost function SourceRow(v: (int, int) -> real, y: int): int -> real {
    (x: int) => v(x, y)
  }

  /** Source row `y`, averaged across to output column `ox`. */
  ghost function Across(w: nat, m: nat, v: (int, int) -> real, ox: int, y: int): real
    requires w >= 1
  {
    Dot(w, Cover(w, m, ox), SourceRow(v, y))
  }

  /** Sums over a row of nested sums can be taken inside. */
  ghost function WeightedCells(cy: int -> real, f: (int, int) -> real): (int, int) -> real {
    (o: int, y: int) => cy(y) * f(o, y)
  }

  lemma {:induction false} RowOfWeighted(h: nat, cy: int -> real, f: (int, int) -> real, o: int)
    ensures Dot(h, cy, Row(f, o)) == Sum(h, j => WeightedCells(cy, f)(o, j))
  {
    var g := WeightedCells(cy, f);
    forall j | 0 <= j < h
      ensures g(o, j) == cy(j) * f(o, j)
    {
    }
    DotOfRow(h, cy, f, o, j => g(o, j));
  }

  lemma {:induction false} ColumnOfWeighted(m: nat, cy: int -> real, f: (int, int) -> real, y: int, value: real,
                                            inner: int -> real)
    requires value == cy(y) && inner(y) == Sum(m, Column(f, y))
    ensures Sum(m, i => WeightedCells(cy, f)(i, y)) == Times(cy, inner)(y)
  {
    var g := WeightedCells(cy, f);
    forall o | 0 <= o < m
      ensures g(o, y) == value * f(o, y)
    {
      assert g(o, y) == cy(y) * f(o, y);
    }
    ColumnScaled(m, value, f, y, i => g(i, y));
  }

  lemma {:induction false} SumInside(m: nat, h: nat, cy: int -> real, f: (int, int) -> real, whole: int -> real,
                                     inner: int -> real)
    requires forall o :: 0 <= o < m ==> whole(o) == Dot(h, cy, Row(f, o))
    requires forall y :: 0 <= y < h ==> inner(y) == Sum(m, Column(f, y))
    ensures Sum(m, whole) == Dot(h, cy, inner)
  {
    var g := WeightedCells(cy, f);
    forall o | 0 <= o < m
      ensures whole(o) == Sum(h, j => g(o, j))
    {
      RowOfWeighted(h, cy, f, o);
    }
    SumEq(m, whole, i => Sum(h, j => g(i, j)));
    SumSwap(m, h, g);
    var turned := j => Sum(m, i => g(i, j));
    forall y | 0 <= y < h
      ensures turned(y) == Times(cy, inner)(y)
    {
      ColumnOfWeighted(m, cy, f, y, cy(y), inner);
    }
    SumEq(h, turned, Times(cy, inner));
  }

  lemma {:induction false} DotOfSource(w: nat, cx: int -> real, v: (int, int) -> real, y: int)
    ensures Dot(w, cx, SourceRow(v, y)) == Sum(w, Weighing(cx, v, y))
  {
    SumEq(w, Times(cx, SourceRow(v, y)), Weighing(cx, v, y));
  }

  lemma {:induction false} AverageIsNested(img: Image, c: Channel, outW: nat, outH: nat, ox: int, oy: int,
                                           rows: int -> real)
    requires img.Valid()
    requires forall y :: 0 <= y < img.h ==> rows(y) == Across(img.w, outW, Channelled(img, c), ox, y)
    ensures Average(img, c, outW, outH, ox, oy) == Dot(img.h, Cover(img.h, outH, oy), rows)
  {
    var cx, cy, v := Cover(img.w, outW, ox), Cover(img.h, outH, oy), Channelled(img, c);
    forall y | 0 <= y < img.h
      ensures rows(y) == Sum(img.w, Weighing(cx, v, y))
    {
      DotOfSource(img.w, cx, v, y);
    }
    NestedIsTotal(img.w, img.h, cx, cy, v, rows);
    SumEq(img.h, y => cy(y) * rows(y), Times(cy, rows));
  }

  /** One channel summed over output row `oy`, and over the whole output. */
  ghost function OutputRow(img: Image, c: Channel, outW: nat, outH: nat): int -> real
    requires img.Valid()
  {
    (oy: int) => Sum(outW, ox => Average(img, c, outW, outH, ox, oy))
  }

  ghost function OutputTotal(img: Image, c: Channel, outW: nat, outH: nat): real
    requires img.Valid()
  {
    Sum(outH, OutputRow(img, c, outW, outH))
  }

  ghost function SourceTotal(img: Image, c: Channel): real
    requires img.Valid()
  {
    Sum(img.h, RowTotals(img, c))
  }

  /** What a source row hands to a whole output row of columns. */
  ghost function Spread(img: Image, c: Channel, outW: nat): int -> real
    requires img.Valid()
  {
    (y: int) => Sum(outW, ox => Across(img.w, outW, Channelled(img, c), ox, y))
  }

  lemma {:induction false} OutputRowIsDot(img: Image, c: Channel, outW: nat, outH: nat, oy: int)
    requires img.Valid()
    ensures OutputRow(img, c, outW, outH)(oy) == Dot(img.h, Cover(img.h, outH, oy), Spread(img, c, outW))
  {
    var f := (ox: int, y: int) => Across(img.w, outW, Channelled(img, c), ox, y);
    var whole := (ox: int) => Average(img, c, outW, outH, ox, oy);
    forall ox | 0 <= ox < outW
      ensures whole(ox) == Dot(img.h, Cover(img.h, outH, oy), Row(f, ox))
    {
      AverageIsNested(img, c, outW, outH, ox, oy, Row(f, ox));
    }
    forall y | 0 <= y < img.h
      ensures Spread(img, c, outW)(y) == Sum(outW, Column(f, y))
    {
      SumEq(outW, ox => Across(img.w, outW, Channelled(img, c), ox, y), Column(f, y));
    }
    SumInside(outW, img.h, Cover(img.h, outH, oy), f, whole, Spread(img, c, outW));
    SumEq(outW, ox => Average(img, c, outW, outH, ox, oy), whole);
  }

  lemma {:induction false} SpreadIsScaled(img: Image, c: Channel, outW: nat, s: real, y: int, total: real)
    requires img.Valid()
    requires IsStep(s, img.w, outW)
    requires total == RowTotal(img.w, Channelled(img, c), y)
    ensures Spread(img, c, outW)(y) == s * total
  {
    var r := SourceRow(Channelled(img, c), y);
    RowTotalIs(img.w, Channelled(img, c), y, r);
    var dots := (ox: int) => Across(img.w, outW, Channelled(img, c), ox, y);
    AxisIsSpent(img.w, outW, s, r, dots, total);
    SumEq(outW, ox => Across(img.w, outW, Channelled(img, c), ox, y), dots);
  }

  lemma {:induction false} RowTotalIs(w: nat, f: (int, int) -> real, y: int, r: int -> real)
    requires forall x :: 0 <= x < w ==> r(x) == f(x, y)
    ensures RowTotal(w, f, y) == Sum(w, r)
  {
    SumEq(w, r, x => f(x, y));
  }

  ghost function RowTotals(img: Image, c: Channel): int -> real
    requires img.Valid()
  {
    (y: int) => RowTotal(img.w, Channelled(img, c), y)
  }

  lemma {:induction false} SpreadAt(img: Image, c: Channel, outW: nat, s: real, y: int, tail: real, last: real)
    requires img.Valid()
    requires IsStep(s, img.w, outW)
    requires tail == Spread(img, c, outW)(y) && last == RowTotals(img, c)(y)
    ensures tail == s * last
  {
    SpreadIsScaled(img, c, outW, s, y, last);
  }

  lemma {:induction false} SpreadIsScaledRow(img: Image, c: Channel, outW: nat, s: real, y: int)
    requires img.Valid()
    requires IsStep(s, img.w, outW)
    ensures Spread(img, c, outW)(y) == ScaledBy(s, RowTotals(img, c))(y)
  {
    var last := RowTotals(img, c)(y);
    ScaledByAt(s, RowTotals(img, c), y, last);
    SpreadAt(img, c, outW, s, y, Spread(img, c, outW)(y), last);
  }

  /** What the source rows hand out across. */
  lemma {:induction false} SpreadIsSpent(img: Image, c: Channel, outW: nat, s: real, total: real)
    requires img.Valid()
    requires IsStep(s, img.w, outW)
    requires total == SourceTotal(img, c)
    ensures SpreadTotal(img, c, outW) == s * total
  {
    forall y | 0 <= y < img.h
      ensures Spread(img, c, outW)(y) == ScaledBy(s, RowTotals(img, c))(y)
    {
      SpreadIsScaledRow(img, c, outW, s, y);
    }
    SumEq(img.h, Spread(img, c, outW), ScaledBy(s, RowTotals(img, c)));
    TotalScaledBy(img.h, s, RowTotals(img, c), total);
  }

  ghost function SpreadTotal(img: Image, c: Channel, outW: nat): real
    requires img.Valid()
  {
    Sum(img.h, Spread(img, c, outW))
  }

  ghost function DotsOf(n: nat, m: nat, r: int -> real): int -> real
    requires n >= 1
  {
    (o: int) => Dot(n, Cover(n, m, o), r)
  }

  lemma {:induction false} OutputAsDots(img: Image, c: Channel, outW: nat, outH: nat)
    requires img.Valid()
    ensures OutputTotal(img, c, outW, outH) == Sum(outH, DotsOf(img.h, outH, Spread(img, c, outW)))
  {
    var rows, dots := OutputRow(img, c, outW, outH), DotsOf(img.h, outH, Spread(img, c, outW));
    forall oy | 0 <= oy < outH
      ensures rows(oy) == dots(oy)
    {
      OutputRowIsDot(img, c, outW, outH, oy);
    }
    SumEq(outH, rows, dots);
  }

  lemma {:induction false} OutputIsSpread(img: Image, c: Channel, outW: nat, outH: nat, sy: real, total: real)
    requires img.Valid()
    requires IsStep(sy, img.h, outH)
    requires total == SpreadTotal(img, c, outW)
    ensures OutputTotal(img, c, outW, outH) == sy * total
  {
    OutputAsDots(img, c, outW, outH);
    AxisIsSpent(img.h, outH, sy, Spread(img, c, outW), DotsOf(img.h, outH, Spread(img, c, outW)), total);
  }

  lemma {:induction false} OutputIsScaled(img: Image, c: Channel, outW: nat, outH: nat, sx: real, sy: real,
                                          source: real, across: real)
    requires img.Valid()
    requires sx * img.w as real == outW as real && sy * img.h as real == outH as real
    requires source == SourceTotal(img, c) && across == sx * source
    ensures OutputTotal(img, c, outW, outH) == sy * across
  {
    RatioIsStep(img.w, outW, sx);
    RatioIsStep(img.h, outH, sy);
    SpreadIsSpent(img, c, outW, sx, source);
    OutputIsSpread(img, c, outW, outH, sy, across);
  }

  /** The output total of each channel is the source total times the two scale factors: nothing is lost. */
  lemma {:induction false} TotalIsConserved(img: Image, c: Channel, outW: nat, outH: nat)
    requires img.Valid()
    ensures var sx, sy := outW as real / img.w as real, outH as real / img.h as real;
            OutputTotal(img, c, outW, outH) == sy * (sx * SourceTotal(img, c))
  {
    var sx, sy := outW as real / img.w as real, outH as real / img.h as real;
    OutputIsScaled(img, c, outW, outH, sx, sy, SourceTotal(img, c), sx * SourceTotal(img, c));
  }
}
