/** Pixel grids shared by every transform: 8-bit RGB pixels, rectangular
    grids indexed [row][column], and the per-channel mean of a rectangle. */
module Bitmap {
  import opened Arith

  /** One uint8 channel value. */
  type Byte = x: int | 0 <= x < 256

  datatype Rgb = Rgb(r: Byte, g: Byte, b: Byte)

  /** A value that may be absent (Python's None). */
  datatype Option<T> = None | Some(value: T)

  const Black := Rgb(0, 0, 0)
  const White := Rgb(255, 255, 255)

  function Min(a: int, b: int): int { if a <= b then a else b }
  function Max(a: int, b: int): int { if a >= b then a else b }

  /** Channel k (0 red, 1 green, 2 blue) of a pixel. */
  function Channel(c: Rgb, k: nat): Byte
    requires k < 3
  {
    if k == 0 then c.r else if k == 1 then c.g else c.b
  }

  /** Number of columns of a grid (that of its first row). */
  function Width<T>(g: seq<seq<T>>): nat
  {
    if |g| == 0 then 0 else |g[0]|
  }

  /** Every row has the same length, as in a numpy image array. */
  predicate Rectangular<T>(g: seq<seq<T>>)
  {
    forall i :: 0 <= i < |g| ==> |g[i]| == Width(g)
  }

  /** The rectangle of columns [x, x + bw) and rows [y, y + bh) lies inside g. */
  predicate InGrid<T>(g: seq<seq<T>>, x: int, y: int, bw: int, bh: int)
  {
    Rectangular(g) && 0 <= x && 0 <= y && 0 <= bw && 0 <= bh &&
    x + bw <= Width(g) && y + bh <= |g|
  }

  /** v is the floor of the mean s / n. */
  predicate FloorMean(v: int, s: int, n: int)
  {
    n * v <= s < n * v + n
  }

  /** Sum of channel k over columns [x, x + bw) of one row. */
  function RowSum(row: seq<Rgb>, k: nat, x: int, bw: nat): (s: nat)
    requires k < 3 && 0 <= x && x + bw <= |row|
    ensures s <= 255 * bw
    decreases bw
  {
    if bw == 0 then 0 else RowSum(row, k, x, bw - 1) + Channel(row[x + bw - 1], k)
  }

  /** Sum of channel k over the rectangle (x, y, bw, bh) of g. */
  function RectSum(g: seq<seq<Rgb>>, k: nat, x: int, y: int, bw: nat, bh: nat): (s: nat)
    requires k < 3 && InGrid(g, x, y, bw, bh)
    ensures s <= 255 * (bw * bh)
    decreases bh
  {
    if bh == 0 then 0
    else
      var above, row := RectSum(g, k, x, y, bw, bh - 1), RowSum(g[y + bh - 1], k, x, bw);
      var n, m := bw * (bh - 1), bw * bh;
      MulPred(bw, bh);
      assert n + bw == m;
      assert above + row <= 255 * n + 255 * bw == 255 * m;
      above + row
  }

  /** The truncated mean of n values of at most 255 each is a Byte. */
  function FloorMeanByte(s: nat, n: nat): (v: Byte)
    requires n > 0 && s <= 255 * n
    ensures FloorMean(v, s, n)
  {
    DivBounds(s, n);
    MulLeCancel(s / n, 255, n);
    s / n
  }

  /** Per-channel mean of a non-empty rectangle, truncated to an integer as
      `int(v)` does for the non-negative float means of the source. */
  function MeanColour(g: seq<seq<Rgb>>, x: int, y: int, bw: nat, bh: nat): (c: Rgb)
    requires InGrid(g, x, y, bw, bh) && bw >= 1 && bh >= 1
    ensures FloorMean(c.r, RectSum(g, 0, x, y, bw, bh), bw * bh)
    ensures FloorMean(c.g, RectSum(g, 1, x, y, bw, bh), bw * bh)
    ensures FloorMean(c.b, RectSum(g, 2, x, y, bw, bh), bw * bh)
  {
    var n := bw * bh;
    Rgb(FloorMeanByte(RectSum(g, 0, x, y, bw, bh), n),
        FloorMeanByte(RectSum(g, 1, x, y, bw, bh), n),
        FloorMeanByte(RectSum(g, 2, x, y, bw, bh), n))
  }

  /** Every pixel of the rectangle has colour c. */
  predicate Flat(g: seq<seq<Rgb>>, x: int, y: int, bw: int, bh: int, c: Rgb)
    requires InGrid(g, x, y, bw, bh)
  {
    forall i, j :: y <= i < y + bh && x <= j < x + bw ==> g[i][j] == c
  }

  lemma {:induction false} FlatRowSum(row: seq<Rgb>, k: nat, x: int, bw: nat, c: Rgb)
    requires k < 3 && 0 <= x && x + bw <= |row|
    requires forall j :: x <= j < x + bw ==> row[j] == c
    ensures RowSum(row, k, x, bw) == bw * Channel(c, k)
    decreases bw
  {
    if bw > 0 {
      FlatRowSum(row, k, x, bw - 1, c);
      MulPred(Channel(c, k), bw);
    }
  }

  lemma {:induction false} FlatRectSum(g: seq<seq<Rgb>>, k: nat, x: int, y: int, bw: nat, bh: nat, c: Rgb)
    requires k < 3 && InGrid(g, x, y, bw, bh) && Flat(g, x, y, bw, bh, c)
    ensures RectSum(g, k, x, y, bw, bh) == (bw * bh) * Channel(c, k)
    decreases bh
  {
    if bh > 0 {
      FlatRectSum(g, k, x, y, bw, bh - 1, c);
      FlatRowSum(g[y + bh - 1], k, x, bw, c);
      MulPred(bw, bh);
      MulDistr(bw * (bh - 1), bw, Channel(c, k));
    }
  }

  /** The floor of a mean is unique. */
  lemma FloorMeanUnique(v: int, u: int, s: int, n: int)
    requires n > 0 && FloorMean(v, s, n) && FloorMean(u, s, n)
    ensures v == u
  {
    MulDistr(v, 1, n);
    MulDistr(u, 1, n);
    MulLtCancel(u, v + 1, n);
    MulLtCancel(v, u + 1, n);
  }

  /** A rectangle of one colour averages to that colour, so painting a flat
      region with its mean leaves it unchanged. */
  lemma FlatMean(g: seq<seq<Rgb>>, x: int, y: int, bw: nat, bh: nat, c: Rgb)
    requires InGrid(g, x, y, bw, bh) && bw >= 1 && bh >= 1 && Flat(g, x, y, bw, bh, c)
    ensures MeanColour(g, x, y, bw, bh) == c
  {
    var m := MeanColour(g, x, y, bw, bh);
    var n := bw * bh;
    FlatRectSum(g, 0, x, y, bw, bh, c);
    FlatRectSum(g, 1, x, y, bw, bh, c);
    FlatRectSum(g, 2, x, y, bw, bh, c);
    FloorMeanUnique(m.r, c.r, n * c.r, n);
    FloorMeanUnique(m.g, c.g, n * c.g, n);
    FloorMeanUnique(m.b, c.b, n * c.b, n);
  }
}
