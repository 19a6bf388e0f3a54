/** The bounded-size loader `_constrain`: every transform first shrinks its
    input so that the longest side is at most a cap, keeping the aspect
    ratio. Only the size arithmetic is modelled; the resampling that
    produces the new pixels is left to the image library. */
module Loader {
  import opened Arith
  import opened Bitmap

  /** Default cap; quadtree, paint-by-number and mosaic use 600, the
      palette extractor 200. */
  const MaxDim := 800

  datatype Size = Size(w: int, h: int)

  /** The size `_constrain` computes, as written: each side becomes
      int(side * (max_dim / longest)), taken here as the exact floor of
      side * max_dim / longest. */
  function ConstrainAsWritten(w: int, h: int, maxDim: int): (s: Size)
    requires w >= 1 && h >= 1 && maxDim >= 1
    ensures Max(w, h) <= maxDim ==> s == Size(w, h)
    ensures 0 <= s.w <= w && 0 <= s.h <= h
    ensures Max(s.w, s.h) == Min(Max(w, h), maxDim)
    // the aspect ratio: each side is the largest integer not above
    // side * maxDim / longest
    ensures Max(w, h) > maxDim ==> s.w * Max(w, h) <= w * maxDim < (s.w + 1) * Max(w, h)
    ensures Max(w, h) > maxDim ==> s.h * Max(w, h) <= h * maxDim < (s.h + 1) * Max(w, h)
  {
    var m := Max(w, h);
    if m <= maxDim then Size(w, h)
    else
      ScaleDown(w, maxDim, m);
      ScaleDown(h, maxDim, m);
      LongestHitsCap(w, h, maxDim);
      ScaledIsFloor(w, maxDim, m);
      ScaledIsFloor(h, maxDim, m);
      Size(w * maxDim / m, h * maxDim / m)
  }

  /** side * maxDim / m is the floor of the exact scaled side. */
  lemma ScaledIsFloor(side: int, maxDim: int, m: int)
    requires m >= 1
    ensures (side * maxDim / m) * m <= side * maxDim < (side * maxDim / m + 1) * m
  {
    var p, q := side * maxDim, side * maxDim / m;
    DivBounds(p, m);
    MulDistr(q, 1, m);
    assert m * q == q * m;
  }

  /** The longest side scales to exactly the cap. */
  lemma LongestHitsCap(w: int, h: int, maxDim: int)
    requires w >= 1 && h >= 1 && 1 <= maxDim < Max(w, h)
    ensures Max(w * maxDim / Max(w, h), h * maxDim / Max(w, h)) == maxDim
  {
    var m := Max(w, h);
    ScaleDown(w, maxDim, m);
    ScaleDown(h, maxDim, m);
    MulDivCancel(maxDim, m);
    assert m * maxDim == maxDim * m;
    assert m * maxDim / m == maxDim;
  }

  /** Scaling a side by maxDim / m with maxDim < m never grows it, and keeps it
      within the cap when the side is at most m. */
  lemma ScaleDown(side: int, maxDim: int, m: int)
    requires 1 <= side <= m && 1 <= maxDim < m
    ensures 0 <= side * maxDim / m <= side
    ensures side * maxDim / m <= maxDim
  {
    var p := side * maxDim;
    MulMono(0, maxDim, side);
    DivLower(p, m, 0);
    MulMono(maxDim, m, side);
    assert side * m == m * side;
    DivUpper(p, m, side);
    MulMono(side, m, maxDim);
    assert maxDim * side == p && maxDim * m == m * maxDim;
    DivUpper(p, m, maxDim);
  }

  /** The source's rounding can collapse the short side of a very elongated
      image to zero pixels, a size the image library refuses to resize to. */
  lemma AsWrittenCollapsesShortSide()
    ensures ConstrainAsWritten(1, 2000, 800) == Size(0, 800)
  {}

  /** The evidently intended size: as written, but no side below one pixel. */
  function Constrain(w: int, h: int, maxDim: int): (s: Size)
    requires w >= 1 && h >= 1 && maxDim >= 1
    ensures Max(w, h) <= maxDim ==> s == Size(w, h)
    ensures 1 <= s.w <= w && 1 <= s.h <= h
    ensures Max(s.w, s.h) == Min(Max(w, h), maxDim)
    ensures w <= h ==> s.w <= s.h
    ensures h <= w ==> s.h <= s.w
    // the aspect ratio: each side is the floor of side * maxDim / longest,
    // raised to one pixel where that floor is zero
    ensures Max(w, h) > maxDim ==> (s.w == 1 || s.w * Max(w, h) <= w * maxDim) && w * maxDim < (s.w + 1) * Max(w, h)
    ensures Max(w, h) > maxDim ==> (s.h == 1 || s.h * Max(w, h) <= h * maxDim) && h * maxDim < (s.h + 1) * Max(w, h)
    ensures s.w == Max(1, ConstrainAsWritten(w, h, maxDim).w) && s.h == Max(1, ConstrainAsWritten(w, h, maxDim).h)
  {
    var a := ConstrainAsWritten(w, h, maxDim);
    ScalingKeepsOrder(w, h, maxDim);
    ScalingKeepsOrder(h, w, maxDim);
    Size(Max(1, a.w), Max(1, a.h))
  }

  /** Scaling both sides by the same factor keeps the shorter side shorter. */
  lemma ScalingKeepsOrder(a: int, b: int, maxDim: int)
    requires 1 <= a && 1 <= b && maxDim >= 1
    ensures a <= b && Max(a, b) > maxDim ==> a * maxDim / Max(a, b) <= b * maxDim / Max(a, b)
  {
    if a <= b {
      MulMono(a, b, maxDim);
      assert a * maxDim == maxDim * a && b * maxDim == maxDim * b;
      DivMono(a * maxDim, b * maxDim, Max(a, b));
    }
  }

  /** Where the source's rounding leaves both sides non-empty, the corrected
      size is exactly the source's. */
  lemma ConstrainAgreesWhenNonEmpty(w: int, h: int, maxDim: int)
    requires w >= 1 && h >= 1 && maxDim >= 1
    requires w * maxDim >= Max(w, h) && h * maxDim >= Max(w, h)
    ensures Constrain(w, h, maxDim) == ConstrainAsWritten(w, h, maxDim)
  {
    var m := Max(w, h);
    if m > maxDim {
      MulDivCancel(1, m);
      DivMono(m, w * maxDim, m);
      DivMono(m, h * maxDim, m);
    }
  }
}
