/**
 Flattening a premultiplied buffer: always onto white and, when enough of it is see-through, onto black.
 Rounding is to whole bytes, halves away from zero.
 */
module Flatten {
  import opened Bytes
  import opened Resample
  import opened Fingerprint
  import opened Averages
  import opened Orientation

  datatype Rgba = Rgba(r: byte, g: byte, b: byte, a: byte)

  /** No buffer, or one of the same size. */
  datatype Alternative = NoAlternative | Alternative(pix: array<Rgba>)

  function Round(x: real): int {
    if x < 0.0 then -(0.5 - x).Floor else (x + 0.5).Floor
  }

  /** The byte `v` is the one nearest to `x`, the upper one of two. */
  ghost predicate Nearest(v: byte, x: real) {
    v as int as real - 0.5 <= x < v as int as real + 0.5
  }

  lemma {:induction false} RoundIsNearest(x: real)
    requires 0.0 <= x <= 255.0
    ensures 0 <= Round(x) <= 255
    ensures Round(x) as real - 0.5 <= x < Round(x) as real + 0.5
  {
  }

  /** A premultiplied channel `p` under alpha `a`, composited over an opaque background value `bg`. */
  function Over(p: real, a: real, bg: real): real {
    p + (255.0 - a) * bg / 255.0
  }

  predicate Premultiplied(p: Pixel) {
    && 0.0 <= p.a <= 255.0
    && 0.0 <= p.r <= p.a
    && 0.0 <= p.g <= p.a
    && 0.0 <= p.b <= p.a
  }

  /** The nearest premultiplied pixel: channels clamped to bytes, colours to their alpha. */
  function Sanitised(p: Pixel): (q: Pixel)
    ensures Premultiplied(q)
    ensures Premultiplied(p) ==> q == p
  {
    var a := Clamp(p.a, 0.0, 255.0);
    Pixel(Min(Clamp(p.r, 0.0, 255.0), a), Min(Clamp(p.g, 0.0, 255.0), a), Min(Clamp(p.b, 0.0, 255.0), a), a)
  }

  lemma {:induction false} SanitisedIs(p: Pixel)
    ensures var q := Sanitised(p);
            && q.a == (if p.a < 0.0 then 0.0 else if p.a > 255.0 then 255.0 else p.a)
            && q.r == (if p.r < 0.0 then 0.0 else if p.r > q.a then q.a else p.r)
            && q.g == (if p.g < 0.0 then 0.0 else if p.g > q.a then q.a else p.g)
            && q.b == (if p.b < 0.0 then 0.0 else if p.b > q.a then q.a else p.b)
  {
  }

  /** An opaque pixel is what compositing `p` over a grey background gives, to the nearest byte. */
  ghost predicate Composited(out: Rgba, p: Pixel, bg: real) {
    && Nearest(out.r, Over(p.r, p.a, bg))
    && Nearest(out.g, Over(p.g, p.a, bg))
    && Nearest(out.b, Over(p.b, p.a, bg))
    && out.a == 255
  }

  lemma {:induction false} OverWhiteIs(out: Rgba, p: Pixel)
    ensures Composited(out, p, 255.0) <==>
              && out.r as int as real - 0.5 <= p.r + 255.0 - p.a < out.r as int as real + 0.5
              && out.g as int as real - 0.5 <= p.g + 255.0 - p.a < out.g as int as real + 0.5
              && out.b as int as real - 0.5 <= p.b + 255.0 - p.a < out.b as int as real + 0.5
              && out.a == 255
  {
    OverWhiteAndBlack(p.r, p.a);
    OverWhiteAndBlack(p.g, p.a);
    OverWhiteAndBlack(p.b, p.a);
  }

  lemma {:induction false} OverBlackIs(out: Rgba, p: Pixel)
    ensures Composited(out, p, 0.0) <==>
              && out.r as int as real - 0.5 <= p.r < out.r as int as real + 0.5
              && out.g as int as real - 0.5 <= p.g < out.g as int as real + 0.5
              && out.b as int as real - 0.5 <= p.b < out.b as int as real + 0.5
              && out.a == 255
  {
    OverWhiteAndBlack(p.r, p.a);
    OverWhiteAndBlack(p.g, p.a);
    OverWhiteAndBlack(p.b, p.a);
  }

  lemma {:induction false} OverWhiteAndBlack(p: real, a: real)
    ensures Over(p, a, 255.0) == p + 255.0 - a
    ensures Over(p, a, 0.0) == p
  {
    var rest := 255.0 - a;
    assert rest * 255.0 / 255.0 == rest;
    assert rest * 0.0 / 255.0 == 0.0;
  }

  /** How many of the first `k` pixels are see-through. */
  function SeeThrough(prem: seq<Pixel>, k: nat): nat
    requires k <= |prem|
  {
    if k == 0 then 0
    else SeeThrough(prem, k - 1) + if Round(prem[k - 1].a) < 250 then 1 else 0
  }

  lemma {:induction false} SeeThroughCounts(prem: seq<Pixel>, k: nat)
    requires k <= |prem|
    ensures SeeThrough(prem, k) == |set i | 0 <= i < k && prem[i].a < 249.5|
  {
    var all := set i | 0 <= i < k && prem[i].a < 249.5;
    if k == 0 {
      assert all == {};
    } else {
      SeeThroughCounts(prem, k - 1);
      var fewer := set i | 0 <= i < k - 1 && prem[i].a < 249.5;
      assert all == if prem[k - 1].a < 249.5 then fewer + {k - 1} else fewer;
    }
  }

  /** At least one pixel in two hundred is see-through. */
  lemma {:induction false} Fraction(k: nat, n: nat)
    requires n > 0
    ensures k as real / n as real >= 0.005 <==> 200 * k >= n
  {
    var q := k as real / n as real;
    assert q * n as real == k as real;
    if q >= 0.005 {
      assert (q - 0.005) * n as real >= 0.0;
    } else {
      assert (0.005 - q) * n as real > 0.0;
    }
  }

  method OneChannel(v: real, a: real) returns (white: byte, black: byte)
    requires 0.0 <= a <= 255.0
    ensures var p := if v < 0.0 then 0.0 else if v > a then a else v;
            && white as int as real - 0.5 <= p + 255.0 - a < white as int as real + 0.5
            && black as int as real - 0.5 <= p < black as int as real + 0.5
  {
    var p := Clamp(v, 0.0, 255.0);
    if p > a {
      p := a;
    }
    RoundIsNearest(p + 255.0 - a);
    RoundIsNearest(p);
    white := Round(p + 255.0 - a) as byte;
    black := Round(p) as byte;
  }

  method OnePixel(p: Pixel) returns (white: Rgba, black: Rgba)
    ensures Composited(white, Sanitised(p), 255.0) && Composited(black, Sanitised(p), 0.0)
  {
    var a := Clamp(p.a, 0.0, 255.0);
    var wr, br := OneChannel(p.r, a);
    var wg, bg := OneChannel(p.g, a);
    var wb, bb := OneChannel(p.b, a);
    white, black := Rgba(wr, wg, wb, 255), Rgba(br, bg, bb, 255);
    SanitisedIs(p);
    OverWhiteIs(white, Sanitised(p));
    OverBlackIs(black, Sanitised(p));
  }

  method CountSeeThrough(prem: array<Pixel>) returns (seeThrough: nat)
    ensures seeThrough == |set i | 0 <= i < prem.Length && prem[i].a < 249.5|
  {
    seeThrough := 0;
    for i := 0 to prem.Length
      invariant seeThrough == SeeThrough(prem[..], i)
    {
      if Round(prem[i].a) < 250 {
        seeThrough := seeThrough + 1;
      }
    }
    SeeThroughCounts(prem[..], prem.Length);
    assert (set i | 0 <= i < prem.Length && prem[i].a < 249.5) ==
           (set i | 0 <= i < prem.Length && prem[..][i].a < 249.5);
  }

  method FlattenBoth(prem: array<Pixel>) returns (white: array<Rgba>, black: Alternative)
    requires prem.Length > 0
    ensures fresh(white) && white.Length == prem.Length
    ensures forall i :: 0 <= i < prem.Length ==> Composited(white[i], Sanitised(prem[i]), 255.0)
    ensures black.Alternative? <==> 200 * |set i | 0 <= i < prem.Length && prem[i].a < 249.5| >= prem.Length
    ensures black.Alternative? ==>
              && black.pix.Length == prem.Length
              && forall i :: 0 <= i < prem.Length ==> Composited(black.pix[i], Sanitised(prem[i]), 0.0)
  {
    var n := prem.Length;
    var seeThrough := CountSeeThrough(prem);
    Fraction(seeThrough, n);
    ghost var clear := set i | 0 <= i < prem.Length && prem[i].a < 249.5;
    white := new Rgba[n];
    black := NoAlternative;
    var blackPix := new Rgba[n];
    if seeThrough as real / n as real >= 0.005 {
      black := Alternative(blackPix);
    }
    for i := 0 to n
      invariant forall j :: 0 <= j < i ==> Composited(white[j], Sanitised(prem[j]), 255.0)
      invariant black.Alternative? ==> forall j :: 0 <= j < i ==> Composited(blackPix[j], Sanitised(prem[j]), 0.0)
    {
      var onWhite, onBlack := OnePixel(prem[i]);
      white[i] := onWhite;
      if black.Alternative? {
        blackPix[i] := onBlack;
      }
    }
    assert clear == set i | 0 <= i < prem.Length && prem[i].a < 249.5;
  }

  /** Averaging keeps an image premultiplied, so the clamps of the flattening never change a value. */
  lemma {:induction false} AreaIsPremultiplied(img: Image, outW: nat, outH: nat, ox: int, oy: int)
    requires img.Valid()
    requires 0 <= ox < outW && 0 <= oy < outH
    requires forall x, y :: 0 <= x < img.w && 0 <= y < img.h ==> Premultiplied(img.At(x, y))
    ensures Premultiplied(Area(img, outW, outH, ox, oy))
    ensures Sanitised(Area(img, outW, outH, ox, oy)) == Area(img, outW, outH, ox, oy)
  {
    AverageIsBetween(img, Alpha, 0.0, 255.0, outW, outH, ox, oy);
    AverageIsBetween(img, Red, 0.0, 255.0, outW, outH, ox, oy);
    AverageIsBetween(img, Green, 0.0, 255.0, outW, outH, ox, oy);
    AverageIsBetween(img, Blue, 0.0, 255.0, outW, outH, ox, oy);
    AverageKeepsOrder(img, Red, Alpha, outW, outH, ox, oy);
    AverageKeepsOrder(img, Green, Alpha, outW, outH, ox, oy);
    AverageKeepsOrder(img, Blue, Alpha, outW, outH, ox, oy);
  }

  lemma {:induction false} OpaqueHasNoAlternative(prem: seq<Pixel>, k: nat)
    requires k <= |prem|
    requires forall i :: 0 <= i < |prem| ==> prem[i].a == 255.0
    ensures SeeThrough(prem, k) == 0
  {
    if k > 0 {
      OpaqueHasNoAlternative(prem, k - 1);
    }
  }

  /**
   The fingerprint's input, from a decoded image and its stored orientation: each displayed cell is the
   average of the displayed image there, composited over white and over black, with no clamping at all.
   */
  method HashInput(img: Image, ghost shown: Image, n: nat, orient: int) returns (white: array<Rgba>, black: Alternative)
    requires n > 0
    requires img.Valid() && shown.Valid()
    requires Displays(shown, img, orient)
    requires forall x, y :: 0 <= x < img.w && 0 <= y < img.h ==> Premultiplied(img.At(x, y))
    ensures white.Length == n * n
    ensures forall x, y {:trigger Area(shown, n, n, x, y)} :: 0 <= x < n && 0 <= y < n ==>
              && 0 <= Cell(n, x, y) < n * n
              && var out, p := white[Cell(n, x, y)], Area(shown, n, n, x, y);
                 && out.r as int as real - 0.5 <= p.r + 255.0 - p.a < out.r as int as real + 0.5
                 && out.g as int as real - 0.5 <= p.g + 255.0 - p.a < out.g as int as real + 0.5
                 && out.b as int as real - 0.5 <= p.b + 255.0 - p.a < out.b as int as real + 0.5
                 && out.a == 255
    ensures exists prem: seq<Pixel> ::
              && IsArea(prem, shown, n, n)
              && (black.Alternative? <==> 200 * |set i | 0 <= i < |prem| && prem[i].a < 249.5| >= n * n)
    ensures black.Alternative? ==>
              && black.pix.Length == n * n
              && forall x, y {:trigger Area(shown, n, n, x, y)} :: 0 <= x < n && 0 <= y < n ==>
                   && 0 <= Cell(n, x, y) < n * n
                   && var out, p := black.pix[Cell(n, x, y)], Area(shown, n, n, x, y);
                      && out.r as int as real - 0.5 <= p.r < out.r as int as real + 0.5
                      && out.g as int as real - 0.5 <= p.g < out.g as int as real + 0.5
                      && out.b as int as real - 0.5 <= p.b < out.b as int as real + 0.5
                      && out.a == 255
  {
    var prem := ResampleOriented(img, shown, n, orient);
    assert prem.Length > 0 by {
      CellFits(n, 0, 0);
    }
    white, black := FlattenBoth(prem);
    ShownIsPremultiplied(img, shown, orient);
    forall x, y | 0 <= x < n && 0 <= y < n
      ensures 0 <= Cell(n, x, y) < n * n
      ensures prem[Cell(n, x, y)] == Area(shown, n, n, x, y) == Sanitised(prem[Cell(n, x, y)])
    {
      AreaIsPremultiplied(shown, n, n, x, y);
      assert prem[Cell(n, x, y)] == prem[..][Cell(n, x, y)];
      OverWhiteIs(white[Cell(n, x, y)], Area(shown, n, n, x, y));
      if black.Alternative? {
        OverBlackIs(black.pix[Cell(n, x, y)], Area(shown, n, n, x, y));
      }
    }
    assert (set i | 0 <= i < prem.Length && prem[i].a < 249.5) ==
           (set i | 0 <= i < |prem[..]| && prem[..][i].a < 249.5);
  }

  lemma {:induction false} ShownIsPremultiplied(img: Image, shown: Image, o: int)
    requires img.Valid() && shown.Valid()
    requires Displays(shown, img, o)
    requires forall x, y :: 0 <= x < img.w && 0 <= y < img.h ==> Premultiplied(img.At(x, y))
    ensures forall x, y :: 0 <= x < shown.w && 0 <= y < shown.h ==> Premultiplied(shown.At(x, y))
  {
    forall x, y | 0 <= x < shown.w && 0 <= y < shown.h
      ensures Premultiplied(shown.At(x, y))
    {
      ShownCell(shown, img, o, Swaps(o), FlipsX(o), FlipsY(o), x, y);
      TurnedAt(img, Swaps(o), FlipsX(o), FlipsY(o), x, y);
    }
  }
}
