/**
 EXIF orientation and its place in the pipeline. `Displays` is the standard's own reading of the
 Orientation field (TIFF 6.0, section 8): it names the visual side that the stored row 0 and column 0
 lie on. The program instead looks each displayed cell up in the stored grid.
 */
module Orientation {
  import opened Resample

  datatype Side = Top | Right | Bottom | Left

  /** The visual side that row 0 of the stored image represents. */
  function RowZeroSide(o: int): Side {
    match o
    case 3 => Bottom
    case 4 => Bottom
    case 5 => Left
    case 6 => Right
    case 7 => Right
    case 8 => Left
    case _ => Top
  }

  /** The visual side that column 0 of the stored image represents. */
  function ColumnZeroSide(o: int): Side {
    match o
    case 2 => Right
    case 3 => Right
    case 5 => Top
    case 6 => Top
    case 7 => Bottom
    case 8 => Bottom
    case _ => Left
  }

  predicate Swaps(o: int) {
    RowZeroSide(o) in {Left, Right}
  }

  /** Where the stored cell (sx, sy) of a w by h image is displayed. */
  function Place(o: int, w: nat, h: nat, sx: int, sy: int): (int, int) {
    if Swaps(o) then
      (if RowZeroSide(o) == Left then sy else h - 1 - sy,
       if ColumnZeroSide(o) == Top then sx else w - 1 - sx)
    else
      (if ColumnZeroSide(o) == Left then sx else w - 1 - sx,
       if RowZeroSide(o) == Top then sy else h - 1 - sy)
  }

  /** `shown` is `stored` as a viewer displays it under orientation `o`. */
  ghost predicate Displays(shown: Image, stored: Image, o: int)
    requires shown.Valid() && stored.Valid()
  {
    && (if Swaps(o) then shown.w == stored.h && shown.h == stored.w
        else shown.w == stored.w && shown.h == stored.h)
    && forall sx, sy {:trigger Place(o, stored.w, stored.h, sx, sy)} ::
         0 <= sx < stored.w && 0 <= sy < stored.h ==>
           var (dx, dy) := Place(o, stored.w, stored.h, sx, sy);
           shown.At(dx, dy) == stored.At(sx, sy)
  }

  /** Which stored pixel a viewer sees at (x, y), for each value of the field. */
  lemma {:induction false} DisplayedCells(shown: Image, stored: Image, o: int, x: int, y: int)
    requires shown.Valid() && stored.Valid() && Displays(shown, stored, o)
    requires 0 <= x < shown.w && 0 <= y < shown.h
    ensures 5 <= o <= 8 ==> shown.w == stored.h && shown.h == stored.w
    ensures !(5 <= o <= 8) ==> shown.w == stored.w && shown.h == stored.h
    ensures var w, h := stored.w, stored.h;
            && (o == 2 ==> shown.At(x, y) == stored.At(w - 1 - x, y))
            && (o == 3 ==> shown.At(x, y) == stored.At(w - 1 - x, h - 1 - y))
            && (o == 4 ==> shown.At(x, y) == stored.At(x, h - 1 - y))
            && (o == 5 ==> shown.At(x, y) == stored.At(y, x))
            && (o == 6 ==> shown.At(x, y) == stored.At(y, h - 1 - x))
            && (o == 7 ==> shown.At(x, y) == stored.At(w - 1 - y, h - 1 - x))
            && (o == 8 ==> shown.At(x, y) == stored.At(w - 1 - y, x))
            && (o < 2 || o > 8 ==> shown.At(x, y) == stored.At(x, y))
  {
    var w, h := stored.w, stored.h;
    var sx := if o == 2 || o == 3 then w - 1 - x else if o == 5 || o == 6 then y
              else if o == 7 || o == 8 then w - 1 - y else x;
    var sy := if o == 3 || o == 4 then h - 1 - y else if o == 5 || o == 8 then x
              else if o == 6 || o == 7 then h - 1 - x else y;
    assert Place(o, w, h, sx, sy) == (x, y);
  }

  // ---- the algorithm -----------------------------------------------------------------------------------

  /** The displayed buffer holds, at each cell's displayed place, what the stored buffer holds at the cell. */
  ghost predicate Oriented(shown: seq<Pixel>, stored: seq<Pixel>, n: nat, o: int) {
    && |shown| == |stored| == n * n
    && forall sx, sy {:trigger Place(o, n, n, sx, sy)} :: 0 <= sx < n && 0 <= sy < n ==>
         var (dx, dy) := Place(o, n, n, sx, sy);
         && 0 <= Cell(n, dx, dy) < n * n
         && 0 <= Cell(n, sx, sy) < n * n
         && shown[Cell(n, dx, dy)] == stored[Cell(n, sx, sy)]
  }

  /** The stored cell that the program copies to displayed cell (x, y). */
  function Source(o: int, n: nat, x: int, y: int): (int, int) {
    match o
    case 2 => (n - 1 - x, y)
    case 3 => (n - 1 - x, n - 1 - y)
    case 4 => (x, n - 1 - y)
    case 5 => (y, x)
    case 6 => (y, n - 1 - x)
    case 7 => (n - 1 - y, n - 1 - x)
    case 8 => (n - 1 - y, x)
    case _ => (x, y)
  }

  /** Looking a displayed cell up undoes placing a stored one. */
  lemma {:induction false} SourceUndoesPlace(o: int, n: nat, sx: int, sy: int)
    ensures var (dx, dy) := Place(o, n, n, sx, sy); Source(o, n, dx, dy) == (sx, sy)
    ensures 0 <= sx < n && 0 <= sy < n ==>
              var (dx, dy) := Place(o, n, n, sx, sy); 0 <= dx < n && 0 <= dy < n
  {
  }

  lemma {:induction false} CellFits(n: nat, x: int, y: int)
    requires 0 <= x < n && 0 <= y < n
    ensures 0 <= Cell(n, x, y) < n * n
  {
    RowStartIsProduct(n, n);
    RowStartIsProduct(n, y);
    RowStartGrows(n, y, n);
  }

  /** Every cell of the first `rows` displayed rows, and of the first `cols` of the next, is in place. */
  ghost predicate CopiedTo(dst: seq<Pixel>, src: seq<Pixel>, n: nat, o: int, rows: int, cols: int) {
    && |dst| == |src| == n * n
    && forall x, y :: 0 <= x < n && 0 <= y < n && (y < rows || (y == rows && x < cols)) ==>
         Copied(dst, src, n, o, x, y)
  }

  /** Displayed cell (x, y) holds what the program looks up for it. */
  ghost predicate Copied(dst: seq<Pixel>, src: seq<Pixel>, n: nat, o: int, x: int, y: int)
    requires |dst| == |src| == n * n
  {
    var (sx, sy) := Source(o, n, x, y);
    && 0 <= Cell(n, x, y) < n * n
    && 0 <= Cell(n, sx, sy) < n * n
    && dst[Cell(n, x, y)] == src[Cell(n, sx, sy)]
  }

  lemma {:induction false} CopyOne(dst: seq<Pixel>, src: seq<Pixel>, n: nat, o: int, x: nat, y: nat)
    requires x < n && y < n
    requires CopiedTo(dst, src, n, o, y, x)
    ensures var (sx, sy) := Source(o, n, x, y);
            && 0 <= Cell(n, x, y) < n * n
            && 0 <= Cell(n, sx, sy) < n * n
            && CopiedTo(dst[Cell(n, x, y) := src[Cell(n, sx, sy)]], src, n, o, y, x + 1)
  {
    var (sx, sy) := Source(o, n, x, y);
    CellFits(n, x, y);
    CellFits(n, sx, sy);
    var next := dst[Cell(n, x, y) := src[Cell(n, sx, sy)]];
    forall x', y' | 0 <= x' < n && 0 <= y' < n && (y' < y || (y' == y && x' < x + 1))
      ensures Copied(next, src, n, o, x', y')
    {
      if x' != x || y' != y {
        assert Copied(dst, src, n, o, x', y');
        CellsDiffer(n, x', y', x, y);
      }
    }
  }

  lemma {:induction false} CellsDiffer(n: nat, x: int, y: int, x': int, y': int)
    requires 0 <= x < n && 0 <= y < n && 0 <= x' < n && 0 <= y' < n && (x != x' || y != y')
    ensures Cell(n, x, y) != Cell(n, x', y')
  {
    RowStartIsProduct(n, y);
    RowStartIsProduct(n, y');
    if y < y' {
      RowStartGrows(n, y, y');
    } else if y' < y {
      RowStartGrows(n, y', y);
    }
  }

  method ApplyOrientation(src: array<Pixel>, n: nat, orient: int) returns (dst: array<Pixel>)
    requires src.Length == n * n
    ensures Oriented(dst[..], src[..], n, orient)
    ensures orient < 2 || orient > 8 ==> dst == src
    ensures 2 <= orient <= 8 ==> fresh(dst)
  {
    if orient < 2 || orient > 8 {
      forall sx, sy | 0 <= sx < n && 0 <= sy < n
        ensures 0 <= Cell(n, sx, sy) < n * n
      {
        CellFits(n, sx, sy);
      }
      return src;
    }
    dst := new Pixel[src.Length](_ => BLANK);
    for y := 0 to n
      invariant CopiedTo(dst[..], src[..], n, orient, y, 0)
    {
      for x := 0 to n
        invariant CopiedTo(dst[..], src[..], n, orient, y, x)
      {
        CopyOne(dst[..], src[..], n, orient, x, y);
        var (sx, sy) := Source(orient, n, x, y);
        ghost var was := dst[..];
        dst[Cell(n, x, y)] := src[Cell(n, sx, sy)];
        assert dst[..] == was[Cell(n, x, y) := src[..][Cell(n, sx, sy)]];
      }
    }
    CopiedIsOriented(dst[..], src[..], n, orient);
  }

  lemma {:induction false} CopiedIsOriented(dst: seq<Pixel>, src: seq<Pixel>, n: nat, o: int)
    requires CopiedTo(dst, src, n, o, n, 0)
    ensures Oriented(dst, src, n, o)
  {
    forall sx, sy | 0 <= sx < n && 0 <= sy < n
      ensures var (dx, dy) := Place(o, n, n, sx, sy);
              && 0 <= Cell(n, dx, dy) < n * n
              && 0 <= Cell(n, sx, sy) < n * n
              && dst[Cell(n, dx, dy)] == src[Cell(n, sx, sy)]
    {
      SourceUndoesPlace(o, n, sx, sy);
      var (dx, dy) := Place(o, n, n, sx, sy);
      assert Copied(dst, src, n, o, dx, dy);
    }
  }
}
