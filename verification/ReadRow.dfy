/** Reading decoded pixels as premultiplied channels on a scale of 0 to 255, format by format. */
module ReadRow {
  import opened Bytes
  import opened Resample
  import opened Flatten

  newtype word = x: int | 0 <= x < 0x1_0000

  /** A stored pixel: opaque (JPEG, grey), straight alpha, premultiplied bytes, or the generic 16-bit channels. */
  datatype Stored =
    | Opaque(r: byte, g: byte, b: byte)
    | Straight(r: byte, g: byte, b: byte, a: byte)
    | Premul(r: byte, g: byte, b: byte, a: byte)
    | Wide(wr: word, wg: word, wb: word, wa: word)

  function Channel8(b: byte): real {
    b as int as real
  }

  function Channel16(w: word): real {
    w as int as real / 257.0
  }

  function Read(s: Stored): Pixel {
    match s
    case Opaque(r, g, b) => Pixel(Channel8(r), Channel8(g), Channel8(b), 255.0)
    case Straight(r, g, b, a) =>
      var k := Channel8(a) / 255.0;
      Pixel(Channel8(r) * k, Channel8(g) * k, Channel8(b) * k, Channel8(a))
    case Premul(r, g, b, a) => Pixel(Channel8(r), Channel8(g), Channel8(b), Channel8(a))
    case Wide(r, g, b, a) => Pixel(Channel16(r), Channel16(g), Channel16(b), Channel16(a))
  }

  /** What is stored can be told from what is read: whole, times alpha, or in units of one 257th. */
  lemma {:induction false} ReadRecovers(s: Stored)
    ensures var p := Read(s);
            match s
            case Opaque(r, g, b) =>
              p.r == r as int as real && p.g == g as int as real && p.b == b as int as real && p.a == 255.0
            case Straight(r, g, b, a) =>
              && 255.0 * p.r == r as int as real * a as int as real
              && 255.0 * p.g == g as int as real * a as int as real
              && 255.0 * p.b == b as int as real * a as int as real
              && p.a == a as int as real
            case Premul(r, g, b, a) =>
              && p.r == r as int as real && p.g == g as int as real && p.b == b as int as real
              && p.a == a as int as real
            case Wide(r, g, b, a) =>
              && 257.0 * p.r == r as int as real && 257.0 * p.g == g as int as real
              && 257.0 * p.b == b as int as real && 257.0 * p.a == a as int as real
  {
    match s
    case Opaque(_, _, _) =>
    case Straight(r, g, b, a) =>
      Unscaled(r as int as real, a as int as real);
      Unscaled(g as int as real, a as int as real);
      Unscaled(b as int as real, a as int as real);
    case Premul(_, _, _, _) =>
    case Wide(_, _, _, _) =>
  }

  lemma {:induction false} Unscaled(c: real, a: real)
    ensures 255.0 * (c * (a / 255.0)) == c * a
  {
    var k := a / 255.0;
    assert 255.0 * k == a;
    assert 255.0 * (c * k) == c * (255.0 * k);
  }

  /** No stored colour of a premultiplied format is above its alpha. */
  predicate ColoursWithinAlpha(s: Stored) {
    match s
    case Opaque(_, _, _) => true
    case Straight(_, _, _, _) => true
    case Premul(r, g, b, a) => r <= a && g <= a && b <= a
    case Wide(r, g, b, a) => r <= a && g <= a && b <= a
  }

  lemma {:induction false} Scaled(c: real, a: real, k: real)
    requires 0.0 <= c <= 255.0 && 0.0 <= a <= 255.0 && k == a / 255.0
    ensures 0.0 <= c * k <= a
  {
    assert 0.0 <= k && 255.0 * k == a;
    Times(c, k);
    Times(255.0 - c, k);
  }

  lemma {:induction false} Times(x: real, k: real)
    requires x >= 0.0 && k >= 0.0
    ensures x * k >= 0.0
  {
  }

  /** Straight alpha always reads as premultiplied. */
  lemma {:induction false} StraightStays(r: real, g: real, b: real, a: real, k: real)
    requires 0.0 <= r <= 255.0 && 0.0 <= g <= 255.0 && 0.0 <= b <= 255.0 && 0.0 <= a <= 255.0 && k == a / 255.0
    ensures Premultiplied(Pixel(r * k, g * k, b * k, a))
  {
    Scaled(r, a, k);
    Scaled(g, a, k);
    Scaled(b, a, k);
  }

  lemma {:induction false} InOrder(c: word, a: word)
    ensures Channel16(c) <= Channel16(a) <==> c <= a
    ensures 0.0 <= Channel16(c) <= 255.0
  {
  }

  /** A pixel is read as a premultiplied one exactly when its stored colours stay within a premultiplied alpha. */
  lemma {:induction false} ReadIsPremultiplied(s: Stored)
    ensures Premultiplied(Read(s)) <==> ColoursWithinAlpha(s)
  {
    match s
    case Opaque(_, _, _) =>
    case Straight(r, g, b, a) =>
      StraightStays(Channel8(r), Channel8(g), Channel8(b), Channel8(a), Channel8(a) / 255.0);
    case Premul(_, _, _, _) =>
    case Wide(r, g, b, a) =>
      WideIs(r, g, b, a);
  }

  lemma {:induction false} WideIs(r: word, g: word, b: word, a: word)
    ensures Premultiplied(Read(Wide(r, g, b, a))) <==> r <= a && g <= a && b <= a
  {
    InOrder(r, a);
    InOrder(g, a);
    InOrder(b, a);
    InOrder(a, a);
  }

  /** Fill the destination with one source row. */
  method FillRow(row: seq<Stored>, dst: array<Pixel>)
    requires dst.Length == |row|
    modifies dst
    ensures forall x :: 0 <= x < |row| ==> dst[x] == Read(row[x])
    ensures (forall s :: s in row ==> ColoursWithinAlpha(s)) <==> (forall p :: p in dst[..] ==> Premultiplied(p))
  {
    for x := 0 to |row|
      invariant forall j :: 0 <= j < x ==> dst[j] == Read(row[j])
    {
      dst[x] := Read(row[x]);
      ReadIsPremultiplied(row[x]);
    }
    forall x | 0 <= x < |row|
      ensures Premultiplied(dst[x]) <==> ColoursWithinAlpha(row[x])
    {
      ReadIsPremultiplied(row[x]);
    }
    assert forall x :: 0 <= x < |row| ==> dst[..][x] == dst[x] && row[x] in row && dst[x] in dst[..];
  }
}
