/** The stained-glass mosaic `mosaic`, after the Voronoi diagram is built:
    for each seed point's region, skip unbounded or degenerate regions,
    clamp the vertices into the canvas, and colour the polygon with the
    mean of a small window around its vertex average. The diagram (region
    lists and vertex coordinates) is an input; filling and outlining the
    polygons is the drawing library's, so each cell is represented by what
    the source hands to it. */
module Mosaic {
  import opened Arith
  import opened Bitmap

  /** Far corners are placed at four times the longest side. */
  const FarFactor := 4

  /** Bounds of the sample half-size `r_size`. */
  const MinHalf := 3
  const MaxHalf := 20

  /** Outline colour of each cell. */
  const OutlineColour := Rgb(20, 20, 20)

  /** A Voronoi vertex or a clamped polygon corner, in float coordinates. */
  datatype Point = Point(x: real, y: real)

  /** The four far-away extra seeds that keep every real seed's region
      bounded: (-far, -far), (-far, 2 far), (2 far, -far), (2 far, 2 far). */
  function Corners(w: int, h: int): (c: seq<Point>)
    requires w >= 1 && h >= 1
    ensures |c| == 4
    ensures forall p :: p in c ==>
      (p.x < 0.0 || p.x >= 2.0 * (w as real)) && (p.y < 0.0 || p.y >= 2.0 * (h as real))
  {
    var far := (Max(w, h) * FarFactor) as real;
    [Point(-far, -far), Point(-far, far * 2.0), Point(far * 2.0, -far), Point(far * 2.0, far * 2.0)]
  }

  /** `max(0, min(hi, v))` on a float coordinate. */
  function ClampReal(v: real, hi: int): (c: real)
    requires hi >= 0
    ensures 0.0 <= c <= hi as real
    ensures 0.0 <= v <= hi as real ==> c == v
  {
    if v < 0.0 then 0.0 else if v > hi as real then hi as real else v
  }

  /** `max(0, min(hi, v))` on an integer. */
  function ClampInt(v: int, hi: int): (c: int)
    requires hi >= 0
    ensures 0 <= c <= hi
    ensures 0 <= v <= hi ==> c == v
  {
    Max(0, Min(hi, v))
  }

  predicate InCanvas(p: Point, w: int, h: int)
  {
    0.0 <= p.x <= (w - 1) as real && 0.0 <= p.y <= (h - 1) as real
  }

  /** A vertex moved into [0, w - 1] x [0, h - 1]. */
  function ClampVertex(p: Point, w: int, h: int): (q: Point)
    requires w >= 1 && h >= 1
    ensures 0.0 <= q.x <= (w - 1) as real && 0.0 <= q.y <= (h - 1) as real
    ensures 0.0 <= p.x <= (w - 1) as real && 0.0 <= p.y <= (h - 1) as real ==> q == p
  {
    Point(ClampReal(p.x, w - 1), ClampReal(p.y, h - 1))
  }

  function Sum(s: seq<int>): int
  {
    if s == [] then 0 else Sum(s[..|s| - 1]) + s[|s| - 1]
  }

  function MinOf(s: seq<int>): (m: int)
    requires |s| > 0
    ensures m in s && forall v :: v in s ==> m <= v
  {
    if |s| == 1 then s[0]
    else
      var m := MinOf(s[..|s| - 1]);
      assert s == s[..|s| - 1] + [s[|s| - 1]];
      Min(m, s[|s| - 1])
  }

  function MaxOf(s: seq<int>): (m: int)
    requires |s| > 0
    ensures m in s && forall v :: v in s ==> v <= m
  {
    if |s| == 1 then s[0]
    else
      var m := MaxOf(s[..|s| - 1]);
      assert s == s[..|s| - 1] + [s[|s| - 1]];
      Max(m, s[|s| - 1])
  }

  /** The sum of n integers in [0, hi] lies in [0, n * hi]. */
  lemma {:induction false} SumInRange(s: seq<int>, hi: int)
    requires forall v :: v in s ==> 0 <= v <= hi
    ensures Mul(|s|, 0) <= Sum(s) <= Mul(|s|, hi)
  {
    if s != [] {
      var init := s[..|s| - 1];
      forall v | v in init ensures 0 <= v <= hi {
        var i :| 0 <= i < |init| && init[i] == v;
        assert s[i] in s;
      }
      assert s[|s| - 1] in s;
      SumInRange(init, hi);
    }
  }

  /** v is `int(x)` for a non-negative x: the whole part of x. */
  predicate Truncates(x: real, v: int)
  {
    0 <= v && v as real <= x < v as real + 1.0
  }

  /** `[int(x) for x, _ in clipped]`: truncation of non-negative floats. */
  function Xs(ps: seq<Point>): (xs: seq<int>)
    ensures |xs| == |ps|
    ensures forall i :: 0 <= i < |ps| && ps[i].x >= 0.0 ==> Truncates(ps[i].x, xs[i])
  {
    seq(|ps|, i requires 0 <= i < |ps| => ps[i].x.Floor)
  }

  function Ys(ps: seq<Point>): (ys: seq<int>)
    ensures |ys| == |ps|
    ensures forall i :: 0 <= i < |ps| && ps[i].y >= 0.0 ==> Truncates(ps[i].y, ys[i])
  {
    seq(|ps|, i requires 0 <= i < |ps| => ps[i].y.Floor)
  }

  /** What the loop hands to `draw.polygon` for one region: the clamped
      polygon and its fill, together with the sample centre, half-size and
      window [x0, x1) x [y0, y1) the fill was averaged over. */
  datatype Cell = Cell(polygon: seq<Point>, cx: int, cy: int, half: int,
                       x0: int, x1: int, y0: int, y1: int, fill: Rgb)

  /** The diagram as scipy returns it: every seed's region index is a valid
      region, and every vertex index is -1 (a vertex at infinity) or a valid
      vertex. */
  predicate Diagram(pointRegion: seq<int>, regions: seq<seq<int>>, vertices: seq<Point>): (ok: bool)
    // the region of every seed can be looked up, and so can each of its
    // finite vertices
    ensures ok ==> forall i :: 0 <= i < |pointRegion| ==>
                     0 <= pointRegion[i] < |regions| &&
                     forall v :: v in regions[pointRegion[i]] ==> v == -1 || 0 <= v < |vertices|
  {
    (forall i :: 0 <= i < |pointRegion| ==> 0 <= pointRegion[i] < |regions|) &&
    (forall r, v :: r in regions && v in r ==> v == -1 || 0 <= v < |vertices|)
  }

  /** A cell that the source would draw on a w x h image src: at least three
      vertices, all inside the canvas; the centre inside the canvas; the
      half-size between 3 and 20; a non-empty window inside the canvas and
      at most 2 half wide and high around the centre; and the fill the
      truncated mean of that window. */
  predicate WellFormed(c: Cell, src: seq<seq<Rgb>>)
  {
    var w, h := Width(src), |src|;
    |c.polygon| >= 3 &&
    (forall p :: p in c.polygon ==> 0.0 <= p.x <= (w - 1) as real && 0.0 <= p.y <= (h - 1) as real) &&
    0 <= c.cx < w && 0 <= c.cy < h &&
    MinHalf <= c.half <= MaxHalf &&
    0 <= c.x0 <= c.cx < c.x1 <= w && c.x1 - c.x0 <= 2 * c.half &&
    0 <= c.y0 <= c.cy < c.y1 <= h && c.y1 - c.y0 <= 2 * c.half &&
    InGrid(src, c.x0, c.y0, c.x1 - c.x0, c.y1 - c.y0) &&
    c.fill == MeanColour(src, c.x0, c.y0, c.x1 - c.x0, c.y1 - c.y0)
  }

  /** `max(3, min(20, span_x // 4, span_y // 4))`. */
  function HalfSize(xs: seq<int>, ys: seq<int>): (r: int)
    requires |xs| > 0 && |ys| > 0
    ensures MinHalf <= r <= MaxHalf
  {
    Max(MinHalf, Min(MaxHalf, Min((MaxOf(xs) - MinOf(xs)) / 4, (MaxOf(ys) - MinOf(ys)) / 4)))
  }

  /** `clipped`: the region's vertices clamped into the canvas. */
  function Clipped(region: seq<int>, vertices: seq<Point>, w: int, h: int): (ps: seq<Point>)
    requires w >= 1 && h >= 1
    requires forall i :: 0 <= i < |region| ==> 0 <= region[i] < |vertices|
    ensures |ps| == |region|
    ensures forall p :: p in ps ==> 0.0 <= p.x <= (w - 1) as real && 0.0 <= p.y <= (h - 1) as real
    ensures forall i :: 0 <= i < |region| ==> ps[i] == ClampVertex(vertices[region[i]], w, h)
    // a vertex already inside the canvas is kept as it is
    ensures forall i :: 0 <= i < |region| && InCanvas(vertices[region[i]], w, h) ==> ps[i] == vertices[region[i]]
  {
    seq(|region|, i requires 0 <= i < |region| =>
      ClampVertex(vertices[region[i]], w, h))
  }

  /** Truncating coordinates in [0, hi] gives integers in [0, hi]. */
  lemma TruncatedInRange(ps: seq<Point>, w: int, h: int)
    requires forall p :: p in ps ==> 0.0 <= p.x <= (w - 1) as real && 0.0 <= p.y <= (h - 1) as real
    ensures forall v :: v in Xs(ps) ==> 0 <= v <= w - 1
    ensures forall v :: v in Ys(ps) ==> 0 <= v <= h - 1
  {
    forall v | v in Xs(ps) ensures 0 <= v <= w - 1 {
      var i :| 0 <= i < |ps| && Xs(ps)[i] == v;
      assert ps[i] in ps;
    }
    forall v | v in Ys(ps) ensures 0 <= v <= h - 1 {
      var i :| 0 <= i < |ps| && Ys(ps)[i] == v;
      assert ps[i] in ps;
    }
  }

  /** `max(0, c - r), min(n, c + r)`: a window of half-size r around c,
      cut to [0, n). */
  function Window(c: int, r: int, n: int): (bounds: (int, int))
    requires 0 <= c < n && r >= 1
    ensures 0 <= bounds.0 <= c < bounds.1 <= n && bounds.1 - bounds.0 <= 2 * r
  {
    (Max(0, c - r), Min(n, c + r))
  }

  /** The cell for a polygon, centre, half-size and window, filled with the
      window's truncated mean (line 329). */
  function FilledCell(ps: seq<Point>, cx: int, cy: int, r: int, xw: (int, int), yw: (int, int),
                      src: seq<seq<Rgb>>): (c: Cell)
    requires Rectangular(src) && |ps| >= 3
    requires forall p :: p in ps ==>
      0.0 <= p.x <= (Width(src) - 1) as real && 0.0 <= p.y <= (|src| - 1) as real
    requires 0 <= cx < Width(src) && 0 <= cy < |src| && MinHalf <= r <= MaxHalf
    requires 0 <= xw.0 <= cx < xw.1 <= Width(src) && xw.1 - xw.0 <= 2 * r
    requires 0 <= yw.0 <= cy < yw.1 <= |src| && yw.1 - yw.0 <= 2 * r
    ensures WellFormed(c, src) && c.polygon == ps
  {
    Cell(ps, cx, cy, r, xw.0, xw.1, yw.0, yw.1, MeanColour(src, xw.0, yw.0, xw.1 - xw.0, yw.1 - yw.0))
  }

  /** Lines 317-329 for a clamped polygon of at least three corners: centre,
      half-size, window and fill. */
  function BuildCell(ps: seq<Point>, src: seq<seq<Rgb>>): (c: Cell)
    requires Rectangular(src) && Width(src) >= 1 && |src| >= 1 && |ps| >= 3
    requires forall p :: p in ps ==>
      0.0 <= p.x <= (Width(src) - 1) as real && 0.0 <= p.y <= (|src| - 1) as real
    ensures WellFormed(c, src) && c.polygon == ps
    // the centre is the floored average of the truncated corners
    ensures IsFlooredMean(c.cx, Sum(Xs(ps)), |ps|) && IsFlooredMean(c.cy, Sum(Ys(ps)), |ps|)
    ensures c.half == HalfSize(Xs(ps), Ys(ps))
    ensures (c.x0, c.x1) == Window(c.cx, c.half, Width(src)) && (c.y0, c.y1) == Window(c.cy, c.half, |src|)
  {
    var xs, ys := Xs(ps), Ys(ps);
    TruncatedInRange(ps, Width(src), |src|);
    var cx, cy := Centre(xs, Width(src) - 1), Centre(ys, |src| - 1);
    var r := HalfSize(xs, ys);
    var c := FilledCell(ps, cx, cy, r, Window(cx, r, Width(src)), Window(cy, r, |src|), src);
    c
  }

  /** The loop body of lines 306-333 for one region of the diagram: None
      when the region is skipped. The `patch.size == 0` test never fires,
      since the window always holds the centre. */
  function CellFor(region: seq<int>, vertices: seq<Point>, src: seq<seq<Rgb>>): (c: Option<Cell>)
    requires Rectangular(src) && Width(src) >= 1 && |src| >= 1
    requires forall v :: v in region ==> v == -1 || 0 <= v < |vertices|
    ensures c.None? <==> |region| < 3 || -1 in region
    ensures c.Some? ==> WellFormed(c.value, src) && |c.value.polygon| == |region|
    ensures c.Some? ==>
              (forall i :: 0 <= i < |region| ==> 0 <= region[i] < |vertices|) &&
              c.value.polygon == Clipped(region, vertices, Width(src), |src|)
    ensures c.Some? ==> c.value == BuildCell(c.value.polygon, src)
  {
    if |region| == 0 || -1 in region then None
    else
      assert forall i :: 0 <= i < |region| ==> region[i] in region;
      var clipped := Clipped(region, vertices, Width(src), |src|);
      if |clipped| < 3 then None else Some(BuildCell(clipped, src))
  }

  /** The clamp of the centre never changes it: the floored mean of the
      clamped, truncated vertex coordinates already lies in the canvas. */
  lemma CentreClampRedundant(xs: seq<int>, hi: int)
    requires |xs| > 0 && hi >= 0 && forall v :: v in xs ==> 0 <= v <= hi
    ensures ClampInt(Sum(xs) / |xs|, hi) == Sum(xs) / |xs|
  {
    SumInRange(xs, hi);
    DivInRange(Sum(xs), |xs|, 0, hi + 1);
  }

  /** m is the floor of total / n. */
  predicate IsFlooredMean(m: int, total: int, n: int)
  {
    n * m <= total < n * (m + 1)
  }

  /** `max(0, min(hi, sum(xs) // len(xs)))`: for coordinates in [0, hi],
      the floored mean of xs, inside [0, hi]. */
  function Centre(xs: seq<int>, hi: int): (c: int)
    requires |xs| > 0 && hi >= 0 && forall v :: v in xs ==> 0 <= v <= hi
    ensures 0 <= c <= hi
    ensures IsFlooredMean(c, Sum(xs), |xs|)
  {
    CentreClampRedundant(xs, hi);
    DivBounds(Sum(xs), |xs|);
    MulDistr(Sum(xs) / |xs|, 1, |xs|);
    ClampInt(Sum(xs) / |xs|, hi)
  }

  /** The drawn cell of one region, if any, as a list. */
  function AsList(o: Option<Cell>): (s: seq<Cell>)
    ensures |s| <= 1 && forall c :: c in s <==> o == Some(c)
  {
    match o
    case None => []
    case Some(c) => [c]
  }

  /** The cells the loop draws for the given seed regions, in order. */
  function CellsOf(ids: seq<int>, regions: seq<seq<int>>, vertices: seq<Point>, src: seq<seq<Rgb>>): (cells: seq<Cell>)
    requires Rectangular(src) && Width(src) >= 1 && |src| >= 1
    requires Diagram(ids, regions, vertices)
    ensures |cells| <= |ids|
  {
    if ids == [] then []
    else
      var init := ids[..|ids| - 1];
      var region := regions[ids[|ids| - 1]];
      assert region in regions;
      CellsOf(init, regions, vertices, src) + AsList(CellFor(region, vertices, src))
  }

  /** Every drawn cell is well formed, and there is at most one per seed. */
  lemma {:induction false} CellsWellFormed(ids: seq<int>, regions: seq<seq<int>>, vertices: seq<Point>, src: seq<seq<Rgb>>)
    requires Rectangular(src) && Width(src) >= 1 && |src| >= 1
    requires Diagram(ids, regions, vertices)
    ensures |CellsOf(ids, regions, vertices, src)| <= |ids|
    ensures forall c :: c in CellsOf(ids, regions, vertices, src) ==> WellFormed(c, src)
  {
    if ids != [] {
      var init := ids[..|ids| - 1];
      CellsWellFormed(init, regions, vertices, src);
    }
  }

  /** A seed whose region is empty, has fewer than three vertices, or has a
      vertex at infinity adds no cell. */
  lemma SkippedRegion(ids: seq<int>, k: int, regions: seq<seq<int>>, vertices: seq<Point>, src: seq<seq<Rgb>>)
    requires Rectangular(src) && Width(src) >= 1 && |src| >= 1
    requires Diagram(ids + [k], regions, vertices) && 0 <= k < |regions|
    requires |regions[k]| < 3 || -1 in regions[k]
    ensures Diagram(ids, regions, vertices)
    ensures CellsOf(ids + [k], regions, vertices, src) == CellsOf(ids, regions, vertices, src)
  {
    assert (ids + [k])[..|ids|] == ids;
    assert regions[k] in regions;
  }

  lemma CellsOfSnoc(ids: seq<int>, k: int, regions: seq<seq<int>>, vertices: seq<Point>, src: seq<seq<Rgb>>)
    requires Rectangular(src) && Width(src) >= 1 && |src| >= 1
    requires Diagram(ids + [k], regions, vertices)
    ensures Diagram(ids, regions, vertices) && 0 <= k < |regions| && regions[k] in regions
    ensures CellsOf(ids + [k], regions, vertices, src) ==
      CellsOf(ids, regions, vertices, src) + AsList(CellFor(regions[k], vertices, src))
  {
    assert (ids + [k])[..|ids|] == ids;
    assert (ids + [k])[|ids|] == k;
  }

  /** The cells one more seed adds. */
  method DrawnAt(src: seq<seq<Rgb>>, ids: seq<int>, i: int, regions: seq<seq<int>>, vertices: seq<Point>)
    returns (next: seq<Cell>)
    requires Rectangular(src) && Width(src) >= 1 && |src| >= 1
    requires Diagram(ids, regions, vertices) && 0 <= i < |ids|
    ensures Diagram(ids[..i], regions, vertices) && Diagram(ids[..i + 1], regions, vertices)
    ensures CellsOf(ids[..i + 1], regions, vertices, src) == CellsOf(ids[..i], regions, vertices, src) + next
  {
    assert ids[..i + 1] == ids[..i] + [ids[i]];
    CellsOfSnoc(ids[..i], ids[i], regions, vertices, src);
    next := AsList(CellFor(regions[ids[i]], vertices, src));
  }

  /** The loop of lines 305-333 over the given seeds' regions. */
  method DrawCells(src: seq<seq<Rgb>>, ids: seq<int>, regions: seq<seq<int>>, vertices: seq<Point>)
    returns (cells: seq<Cell>)
    requires Rectangular(src) && Width(src) >= 1 && |src| >= 1
    requires Diagram(ids, regions, vertices)
    ensures cells == CellsOf(ids, regions, vertices, src)
  {
    cells := [];
    var i := 0;
    while i < |ids|
      invariant 0 <= i <= |ids|
      invariant Diagram(ids[..i], regions, vertices)
      invariant cells == CellsOf(ids[..i], regions, vertices, src)
    {
      var next := DrawnAt(src, ids, i, regions, vertices);
      cells := cells + next;
      i := i + 1;
    }
    assert ids[..i] == ids;
  }

  /** `mosaic` after the diagram is built: the cells drawn for the first
      numCells seeds, at most one per seed, each well formed. */
  method Mosaic(src: seq<seq<Rgb>>, numCells: nat, pointRegion: seq<int>, regions: seq<seq<int>>, vertices: seq<Point>)
    returns (cells: seq<Cell>)
    requires Rectangular(src) && Width(src) >= 1 && |src| >= 1
    requires Diagram(pointRegion, regions, vertices)
    ensures cells == CellsOf(pointRegion[..Min(numCells, |pointRegion|)], regions, vertices, src)
    ensures |cells| <= numCells
    ensures forall c :: c in cells ==> WellFormed(c, src)
  {
    var ids := pointRegion[..Min(numCells, |pointRegion|)];
    cells := DrawCells(src, ids, regions, vertices);
    CellsWellFormed(ids, regions, vertices, src);
  }
}
