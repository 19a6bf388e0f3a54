/** The paint-by-number generator `color_by_number`, after quantisation:
    number the colours in `np.unique` order, outline the borders between
    numbers, and choose where each large enough region gets its number. The
    quantised grid and the connected-component labelling (`ndimage.label`)
    are inputs; drawing the digits is the font library's and is represented
    by the list of label positions. */
module PaintByNumber {
  import opened Arith
  import opened Bitmap

  // ---------------------------------------------------------------------
  // np.unique(flat, axis=0)

  /** Lexicographic order on (r, g, b), the order `np.unique` sorts rows in. */
  predicate Before(a: Rgb, b: Rgb)
  {
    a.r < b.r || (a.r == b.r && (a.g < b.g || (a.g == b.g && a.b < b.b)))
  }

  predicate StrictlySorted(u: seq<Rgb>)
  {
    forall i, j :: 0 <= i < j < |u| ==> Before(u[i], u[j])
  }

  /** Row-major flattening, `reshape(-1, 3)`. */
  function Flatten(q: seq<seq<Rgb>>): (f: seq<Rgb>)
    ensures forall c :: c in f <==> exists i, j :: 0 <= i < |q| && 0 <= j < |q[i]| && q[i][j] == c
  {
    if q == [] then []
    else
      var f := Flatten(q[..|q| - 1]) + q[|q| - 1];
      assert forall i :: 0 <= i < |q| - 1 ==> q[..|q| - 1][i] == q[i];
      f
  }

  /** Adds c to a strictly sorted list unless it is there already. */
  function InsertColour(c: Rgb, u: seq<Rgb>): (r: seq<Rgb>)
    requires StrictlySorted(u)
    ensures StrictlySorted(r)
    ensures forall x :: x in r <==> x == c || x in u
  {
    if u == [] then [c]
    else if c == u[0] then u
    else if Before(c, u[0]) then [c] + u
    else
      var r := InsertColour(c, u[1..]);
      assert forall x :: x in u[1..] ==> Before(u[0], x);
      [u[0]] + r
  }

  /** The distinct colours of s in ascending lexicographic order. */
  function UniqueOf(s: seq<Rgb>): (u: seq<Rgb>)
    ensures StrictlySorted(u)
    ensures forall c :: c in u <==> c in s
  {
    if s == [] then [] else InsertColour(s[0], UniqueOf(s[1..]))
  }

  function UniqueColours(q: seq<seq<Rgb>>): seq<Rgb>
  {
    UniqueOf(Flatten(q))
  }

  /** The position of c in a list that contains it, which is unique when the
      list is strictly sorted. */
  function IndexOf(u: seq<Rgb>, c: Rgb): (k: nat)
    requires c in u
    ensures k < |u| && u[k] == c
    ensures forall i :: 0 <= i < k ==> u[i] != c
  {
    if u[0] == c then 0 else IndexOf(u[1..], c) + 1
  }

  /** A strictly sorted list holds each colour once. */
  lemma SortedIndexUnique(u: seq<Rgb>, i: nat, j: nat)
    requires StrictlySorted(u) && i < |u| && j < |u| && i != j
    ensures u[i] != u[j]
  {
    if i < j {
      assert Before(u[i], u[j]);
    } else {
      assert Before(u[j], u[i]);
    }
  }

  // ---------------------------------------------------------------------
  // The colour map and the palette

  /** `color_map = (inverse + 1).reshape(h, w)`: each pixel's 1-based
      position among the unique colours. */
  function ColourMap(q: seq<seq<Rgb>>): (m: seq<seq<int>>)
    ensures |m| == |q|
    ensures forall i :: 0 <= i < |q| ==> |m[i]| == |q[i]|
  {
    var u := UniqueColours(q);
    seq(|q|, i requires 0 <= i < |q| =>
      seq(|q[i]|, j requires 0 <= j < |q[i]| =>
        assert q[i][j] in Flatten(q);
        IndexOf(u, q[i][j]) + 1))
  }

  /** The colour map numbers each pixel 1..k and the number leads back to the
      pixel's colour; two pixels have the same number exactly when they have
      the same colour. */
  lemma ColourMapRoundTrip(q: seq<seq<Rgb>>, i: nat, j: nat, i': nat, j': nat)
    requires i < |q| && j < |q[i]| && i' < |q| && j' < |q[i']|
    ensures 1 <= ColourMap(q)[i][j] <= |UniqueColours(q)|
    ensures UniqueColours(q)[ColourMap(q)[i][j] - 1] == q[i][j]
    ensures ColourMap(q)[i][j] == ColourMap(q)[i'][j'] <==> q[i][j] == q[i'][j']
  {
    var u := UniqueColours(q);
    var m := ColourMap(q);
    assert q[i][j] in Flatten(q) && q[i'][j'] in Flatten(q);
    if q[i][j] != q[i'][j'] {
      assert u[m[i][j] - 1] != u[m[i'][j'] - 1];
    }
  }

  /** One entry of the returned palette: a number and its colour. */
  datatype Entry = Entry(number: int, colour: Rgb)

  /** Some entry of p carries number k. */
  predicate HasNumber(p: seq<Entry>, k: int)
  {
    exists e :: e in p && e.number == k
  }

  /** `[(i + 1, c) for i, c in enumerate(unique_colors)]`. */
  function NumberedPalette(u: seq<Rgb>): (p: seq<Entry>)
    ensures |p| == |u|
  {
    seq(|u|, i requires 0 <= i < |u| => Entry(i + 1, u[i]))
  }

  /** The palette numbers are exactly 1..k, one per distinct colour of the
      image, and each number is the one the colour map uses for that colour. */
  lemma PaletteNumbering(q: seq<seq<Rgb>>)
    ensures forall e :: e in NumberedPalette(UniqueColours(q)) ==>
      1 <= e.number <= |UniqueColours(q)|
    ensures forall k :: 1 <= k <= |UniqueColours(q)| ==> HasNumber(NumberedPalette(UniqueColours(q)), k)
    ensures forall e, e' :: e in NumberedPalette(UniqueColours(q)) && e' in NumberedPalette(UniqueColours(q)) ==>
      (e.number == e'.number <==> e.colour == e'.colour)
    ensures forall c :: c in Flatten(q) <==> exists e :: e in NumberedPalette(UniqueColours(q)) && e.colour == c
    ensures forall i, j :: 0 <= i < |q| && 0 <= j < |q[i]| ==>
      Entry(ColourMap(q)[i][j], q[i][j]) in NumberedPalette(UniqueColours(q))
  {
    var u := UniqueColours(q);
    var p := NumberedPalette(u);
    forall k | 1 <= k <= |u| ensures HasNumber(p, k) {
      assert p[k - 1] in p;
    }
    forall e, e' | e in p && e' in p ensures e.number == e'.number <==> e.colour == e'.colour {
      var a :| 0 <= a < |p| && p[a] == e;
      var b :| 0 <= b < |p| && p[b] == e';
      if a != b {
        SortedIndexUnique(u, a, b);
      }
    }
    forall c ensures c in Flatten(q) <==> exists e :: e in p && e.colour == c {
      if c in Flatten(q) {
        var k := IndexOf(u, c);
        assert p[k] in p;
      }
    }
    forall i, j | 0 <= i < |q| && 0 <= j < |q[i]| ensures Entry(ColourMap(q)[i][j], q[i][j]) in p {
      ColourMapRoundTrip(q, i, j, i, j);
      assert p[ColourMap(q)[i][j] - 1] == Entry(ColourMap(q)[i][j], q[i][j]);
    }
  }

  // ---------------------------------------------------------------------
  // Boundary mask and outline

  /** `np.pad(m[:, :-1] != m[:, 1:], ((0, 0), (0, 1)))`: a pixel differs from
      its right neighbour; the padded last column is false. */
  function HDiff(m: seq<seq<int>>): (d: seq<seq<bool>>)
    requires Rectangular(m)
    ensures |d| == |m| && forall i :: 0 <= i < |d| ==> |d[i]| == Width(m)
  {
    seq(|m|, i requires 0 <= i < |m| =>
      if Width(m) == 0 then []
      else seq(Width(m) - 1, j requires 0 <= j < Width(m) - 1 => m[i][j] != m[i][j + 1]) + [false])
  }

  /** `np.pad(m[:-1, :] != m[1:, :], ((0, 1), (0, 0)))`: a pixel differs from
      the one below; the padded last row is false. */
  function VDiff(m: seq<seq<int>>): (d: seq<seq<bool>>)
    requires Rectangular(m)
    ensures |d| == |m| && forall i :: 0 <= i < |d| ==> |d[i]| == Width(m)
  {
    if |m| == 0 then []
    else
      seq(|m| - 1, i requires 0 <= i < |m| - 1 =>
        seq(Width(m), j requires 0 <= j < Width(m) => m[i][j] != m[i + 1][j])) +
      [seq(Width(m), _ => false)]
  }

  /** `boundary = h_diff | v_diff`. */
  function BoundaryMask(m: seq<seq<int>>): (b: seq<seq<bool>>)
    requires Rectangular(m)
    ensures |b| == |m| && forall i :: 0 <= i < |b| ==> |b[i]| == Width(m)
  {
    var h, v := HDiff(m), VDiff(m);
    seq(|m|, i requires 0 <= i < |m| =>
      seq(Width(m), j requires 0 <= j < Width(m) => h[i][j] || v[i][j]))
  }

  /** White everywhere, black on the boundary. */
  function Outline(m: seq<seq<int>>): (o: seq<seq<Rgb>>)
    requires Rectangular(m)
    ensures |o| == |m| && forall i :: 0 <= i < |o| ==> |o[i]| == Width(m)
  {
    var b := BoundaryMask(m);
    seq(|m|, i requires 0 <= i < |m| =>
      seq(Width(m), j requires 0 <= j < Width(m) => if b[i][j] then Black else White))
  }

  /** A pixel of the outline is black exactly when its number differs from
      that of its right or lower neighbour, and white otherwise. */
  lemma OutlineIffBoundary(m: seq<seq<int>>, i: nat, j: nat)
    requires Rectangular(m) && i < |m| && j < Width(m)
    ensures Outline(m)[i][j] == Black <==>
      (j < Width(m) - 1 && m[i][j] != m[i][j + 1]) || (i < |m| - 1 && m[i][j] != m[i + 1][j])
    ensures Outline(m)[i][j] == Black || Outline(m)[i][j] == White
  {
    var h, v := HDiff(m), VDiff(m);
    assert h[i][j] <==> j < Width(m) - 1 && m[i][j] != m[i][j + 1] by {
      var row := seq(Width(m) - 1, j requires 0 <= j < Width(m) - 1 => m[i][j] != m[i][j + 1]);
      assert h[i] == row + [false];
      if j == Width(m) - 1 {
        assert h[i][j] == false;
      } else {
        assert h[i][j] == row[j];
      }
    }
    assert v[i][j] <==> i < |m| - 1 && m[i][j] != m[i + 1][j];
  }

  /** Since the numbering is one-to-one, the outline marks exactly the pixels
      whose colour differs from that of the right or lower neighbour. */
  lemma OutlineIffColourChange(q: seq<seq<Rgb>>, i: nat, j: nat)
    requires Rectangular(q) && i < |q| && j < Width(q)
    ensures Rectangular(ColourMap(q))
    ensures Outline(ColourMap(q))[i][j] == Black <==>
      (j < Width(q) - 1 && q[i][j] != q[i][j + 1]) || (i < |q| - 1 && q[i][j] != q[i + 1][j])
  {
    var m := ColourMap(q);
    assert Width(m) == Width(q);
    OutlineIffBoundary(m, i, j);
    if j < Width(q) - 1 {
      ColourMapRoundTrip(q, i, j, i, j + 1);
    }
    if i < |q| - 1 {
      ColourMapRoundTrip(q, i, j, i + 1, j);
    }
  }

  // ---------------------------------------------------------------------
  // Regions and label points

  datatype Pos = Pos(row: int, col: int)

  predicate InBounds(m: seq<seq<int>>, p: Pos)
  {
    0 <= p.row < |m| && 0 <= p.col < |m[p.row]|
  }

  /** The four neighbours that 2-D `ndimage.label` connects by default. */
  predicate Adjacent(p: Pos, p': Pos)
  {
    (p.row == p'.row && (p.col - p'.col == 1 || p'.col - p.col == 1)) ||
    (p.col == p'.col && (p.row - p'.row == 1 || p'.row - p.row == 1))
  }

  /** Row-major order, the order `np.where` lists pixels in. */
  predicate RowMajor(p: Pos, p': Pos)
  {
    p.row < p'.row || (p.row == p'.row && p.col < p'.col)
  }

  /** What `ndimage.label(color_map == cidx)` is taken to return: regions
      listed as pixel lists in row-major order, each non-empty and of number
      cidx, pairwise disjoint, together covering every pixel of number cidx,
      and closed under same-number 4-adjacency. */
  ghost predicate Labelling(m: seq<seq<int>>, cidx: int, regions: seq<seq<Pos>>): (ok: bool)
    // every pixel of number cidx lies in exactly one region
    ensures ok ==> forall i, j :: 0 <= i < |m| && 0 <= j < |m[i]| && m[i][j] == cidx ==>
      exists a :: 0 <= a < |regions| && Pos(i, j) in regions[a] &&
        forall b :: 0 <= b < |regions| && b != a ==> Pos(i, j) !in regions[b]
  {
    var ok := LabellingHolds(m, cidx, regions);
    assert ok ==> forall i, j :: 0 <= i < |m| && 0 <= j < |m[i]| && m[i][j] == cidx ==>
      exists a :: 0 <= a < |regions| && Pos(i, j) in regions[a] &&
        forall b :: 0 <= b < |regions| && b != a ==> Pos(i, j) !in regions[b]
    by {
      if ok {
        forall i, j | 0 <= i < |m| && 0 <= j < |m[i]| && m[i][j] == cidx
          ensures exists a :: 0 <= a < |regions| && Pos(i, j) in regions[a] &&
                   forall b :: 0 <= b < |regions| && b != a ==> Pos(i, j) !in regions[b]
        {
          var r :| r in regions && Pos(i, j) in r;
          var a :| 0 <= a < |regions| && regions[a] == r;
          assert forall b :: 0 <= b < |regions| && b != a ==> Pos(i, j) !in regions[b];
        }
      }
    }
    ok
  }

  ghost predicate LabellingHolds(m: seq<seq<int>>, cidx: int, regions: seq<seq<Pos>>)
  {
    (forall r :: r in regions ==> |r| > 0) &&
    (forall r, p :: r in regions && p in r ==> InBounds(m, p) && m[p.row][p.col] == cidx) &&
    (forall r :: r in regions ==> forall a, b :: 0 <= a < b < |r| ==> RowMajor(r[a], r[b])) &&
    (forall a, b :: 0 <= a < b < |regions| ==> forall p :: p in regions[a] ==> p !in regions[b]) &&
    (forall i, j :: 0 <= i < |m| && 0 <= j < |m[i]| && m[i][j] == cidx ==>
      exists r :: r in regions && Pos(i, j) in r) &&
    (forall r, p, p' ::
      (r in regions && p in r && Adjacent(p, p') && InBounds(m, p') && m[p'.row][p'.col] == cidx) ==>
      p' in r)
  }

  function SumRows(r: seq<Pos>): int
  {
    if r == [] then 0 else SumRows(r[..|r| - 1]) + r[|r| - 1].row
  }

  function SumCols(r: seq<Pos>): int
  {
    if r == [] then 0 else SumCols(r[..|r| - 1]) + r[|r| - 1].col
  }

  /** `(ys - cy) ** 2 + (xs - cx) ** 2` for one pixel. */
  function SqDist(p: Pos, cy: int, cx: int): (d: int)
    ensures d >= 0
    ensures d == 0 <==> p == Pos(cy, cx)
  {
    (p.row - cy) * (p.row - cy) + (p.col - cx) * (p.col - cx)
  }

  /** `np.argmin`: the first position of a smallest value. */
  function ArgMin(d: seq<int>): (k: nat)
    requires |d| > 0
    ensures k < |d|
    ensures forall i :: 0 <= i < |d| ==> d[k] <= d[i]
    ensures forall i :: 0 <= i < k ==> d[i] > d[k]
    decreases |d|
  {
    if |d| == 1 then 0
    else
      var k := ArgMin(d[..|d| - 1]);
      assert forall i :: 0 <= i < |d| - 1 ==> d[..|d| - 1][i] == d[i];
      if d[|d| - 1] < d[k] then |d| - 1 else k
  }

  /** `int(np.mean(ys)), int(np.mean(xs))`: the floor of the mean row and
      column, exact for the non-negative coordinates of a region. */
  function Centroid(r: seq<Pos>): (c: Pos)
    requires |r| > 0
    ensures |r| * c.row <= SumRows(r) < |r| * (c.row + 1)
    ensures |r| * c.col <= SumCols(r) < |r| * (c.col + 1)
  {
    DivBounds(SumRows(r), |r|);
    DivBounds(SumCols(r), |r|);
    MulDistr(SumRows(r) / |r|, 1, |r|);
    MulDistr(SumCols(r) / |r|, 1, |r|);
    Pos(SumRows(r) / |r|, SumCols(r) / |r|)
  }

  /** Where a region's number is written: its floored centroid when that is
      one of its pixels, otherwise the first of its pixels nearest to the
      centroid by squared distance. */
  function LabelPoint(r: seq<Pos>): (p: Pos)
    requires |r| > 0
    ensures p in r
    ensures Centroid(r) in r ==> p == Centroid(r)
    ensures Centroid(r) !in r ==> forall x :: x in r ==>
      SqDist(p, Centroid(r).row, Centroid(r).col) <= SqDist(x, Centroid(r).row, Centroid(r).col)
  {
    var c := Centroid(r);
    if c in r then c
    else
      var d := seq(|r|, i requires 0 <= i < |r| => SqDist(r[i], c.row, c.col));
      var k := ArgMin(d);
      assert forall x :: x in r ==> exists i :: 0 <= i < |r| && r[i] == x && d[i] == SqDist(x, c.row, c.col);
      r[k]
  }

  /** The centroid of a region of an h x w grid lies in the grid, so
      indexing the region mask with it stays in bounds. */
  lemma CentroidInRange(r: seq<Pos>, h: int, w: int)
    requires |r| > 0 && forall p :: p in r ==> 0 <= p.row < h && 0 <= p.col < w
    ensures 0 <= Centroid(r).row < h && 0 <= Centroid(r).col < w
  {
    SumsInRange(r, h, w);
    DivInRange(SumRows(r), |r|, 0, h);
    DivInRange(SumCols(r), |r|, 0, w);
  }

  lemma {:induction false} SumsInRange(r: seq<Pos>, h: int, w: int)
    requires forall p :: p in r ==> 0 <= p.row < h && 0 <= p.col < w
    ensures Mul(|r|, 0) <= SumRows(r) <= Mul(|r|, h - 1)
    ensures Mul(|r|, 0) <= SumCols(r) <= Mul(|r|, w - 1)
  {
    if r != [] {
      assert r[|r| - 1] in r;
      assert forall p :: p in r[..|r| - 1] ==> p in r;
      SumsInRange(r[..|r| - 1], h, w);
    }
  }

  // ---------------------------------------------------------------------
  // Minimum region size and labelling

  /** `max(20, int(total_pixels * min_region_pct / 100))` with the float
      percentage taken as an exact real. */
  function MinSize(total: nat, pct: real): (s: int)
    requires pct >= 0.0
    ensures s >= 20
  {
    Max(20, ((total as real) * pct / 100.0).Floor)
  }

  /** A larger percentage never gives a smaller minimum. */
  lemma MinSizeMonotone(total: nat, pct: real, pct': real)
    requires 0.0 <= pct <= pct'
    ensures MinSize(total, pct) <= MinSize(total, pct')
  {
    var a, b := (total as real) * pct / 100.0, (total as real) * pct' / 100.0;
    assert (total as real) * pct <= (total as real) * pct';
    assert a <= b;
    assert a.Floor as real <= a < b.Floor as real + 1.0;
  }

  /** One drawn number: the colour index and the pixel it is centred on. */
  datatype Label = Label(number: int, at: Pos)

  /** The labels the inner loop draws for the regions of colour cidx: one per
      region of at least minSize pixels, in region order. */
  function RegionLabels(cidx: int, regions: seq<seq<Pos>>, minSize: int): (labels: seq<Label>)
    requires forall r :: r in regions ==> |r| > 0
    ensures |labels| <= |regions|
    ensures forall l :: l in labels ==> l.number == cidx
  {
    if regions == [] then []
    else
      var last := regions[|regions| - 1];
      assert forall r :: r in regions[..|regions| - 1] ==> r in regions;
      RegionLabels(cidx, regions[..|regions| - 1], minSize) +
      (if |last| < minSize then [] else [Label(cidx, LabelPoint(last))])
  }

  /** The labels of colours 1..|regions|, regions[c - 1] being the regions of
      colour c. */
  function AllLabels(regions: seq<seq<seq<Pos>>>, minSize: int): (labels: seq<Label>)
    requires forall rs, r :: rs in regions && r in rs ==> |r| > 0
    ensures forall l :: l in labels ==> 1 <= l.number <= |regions|
  {
    if regions == [] then []
    else
      assert forall rs :: rs in regions[..|regions| - 1] ==> rs in regions;
      AllLabels(regions[..|regions| - 1], minSize) +
      RegionLabels(|regions|, regions[|regions| - 1], minSize)
  }

  /** Every label of colour cidx is centred on a pixel of a region of
      colour cidx with at least minSize pixels. */
  lemma {:induction false} RegionLabelsSound(cidx: int, regions: seq<seq<Pos>>, minSize: int)
    requires forall r :: r in regions ==> |r| > 0
    ensures forall l :: l in RegionLabels(cidx, regions, minSize) ==>
      l.number == cidx && exists r :: r in regions && |r| >= minSize && l.at in r
  {
    if regions != [] {
      var init := regions[..|regions| - 1];
      assert forall r :: r in init ==> r in regions;
      RegionLabelsSound(cidx, init, minSize);
      var last := regions[|regions| - 1];
      assert last in regions;
    }
  }

  /** Every label is centred on a pixel of a region of its own colour number
      with at least minSize pixels; numbers run over 1..k. */
  lemma {:induction false} AllLabelsSound(regions: seq<seq<seq<Pos>>>, minSize: int)
    requires forall rs, r :: rs in regions && r in rs ==> |r| > 0
    ensures forall l :: l in AllLabels(regions, minSize) ==>
      1 <= l.number <= |regions| &&
      exists r :: r in regions[l.number - 1] && |r| >= minSize && l.at in r
  {
    if regions != [] {
      var init := regions[..|regions| - 1];
      assert forall rs :: rs in init ==> rs in regions;
      AllLabelsSound(init, minSize);
      var last := regions[|regions| - 1];
      assert last in regions;
      RegionLabelsSound(|regions|, last, minSize);
      forall l | l in AllLabels(init, minSize)
        ensures exists r :: r in regions[l.number - 1] && |r| >= minSize && l.at in r
      {
        assert regions[l.number - 1] == init[l.number - 1];
      }
    }
  }

  /** Every region of colour cidx with at least minSize pixels gets its
      number, at its label point. */
  lemma {:induction false} RegionLabelsComplete(cidx: int, regions: seq<seq<Pos>>, minSize: int)
    requires forall r :: r in regions ==> |r| > 0
    ensures forall r :: r in regions && |r| >= minSize ==>
      Label(cidx, LabelPoint(r)) in RegionLabels(cidx, regions, minSize)
  {
    if regions != [] {
      var init := regions[..|regions| - 1];
      assert forall r :: r in init ==> r in regions;
      RegionLabelsComplete(cidx, init, minSize);
      forall r | r in regions && |r| >= minSize
        ensures Label(cidx, LabelPoint(r)) in RegionLabels(cidx, regions, minSize)
      {
        if r !in init {
          assert regions == init + [regions[|regions| - 1]];
          assert r == regions[|regions| - 1];
        }
      }
    }
  }

  /** Every region of at least minSize pixels, of any colour c, gets its
      number c at its label point. */
  lemma {:induction false} AllLabelsComplete(regions: seq<seq<seq<Pos>>>, minSize: int)
    requires forall rs, r :: rs in regions && r in rs ==> |r| > 0
    ensures forall c, r :: 1 <= c <= |regions| && r in regions[c - 1] && |r| >= minSize ==>
      Label(c, LabelPoint(r)) in AllLabels(regions, minSize)
  {
    if regions != [] {
      var init := regions[..|regions| - 1];
      var last := regions[|regions| - 1];
      assert forall rs :: rs in init ==> rs in regions;
      assert last in regions;
      AllLabelsComplete(init, minSize);
      RegionLabelsComplete(|regions|, last, minSize);
      forall c, r | 1 <= c <= |regions| && r in regions[c - 1] && |r| >= minSize
        ensures Label(c, LabelPoint(r)) in AllLabels(regions, minSize)
      {
        if c < |regions| {
          assert regions[c - 1] == init[c - 1];
        }
      }
    }
  }

  /** Raising the minimum size never adds labels. */
  lemma {:induction false} RegionLabelsMonotone(cidx: int, regions: seq<seq<Pos>>, s: int, s': int)
    requires forall r :: r in regions ==> |r| > 0
    requires s <= s'
    ensures |RegionLabels(cidx, regions, s')| <= |RegionLabels(cidx, regions, s)|
  {
    if regions != [] {
      assert forall r :: r in regions[..|regions| - 1] ==> r in regions;
      RegionLabelsMonotone(cidx, regions[..|regions| - 1], s, s');
    }
  }

  lemma {:induction false} AllLabelsMonotone(regions: seq<seq<seq<Pos>>>, s: int, s': int)
    requires forall rs, r :: rs in regions && r in rs ==> |r| > 0
    requires s <= s'
    ensures |AllLabels(regions, s')| <= |AllLabels(regions, s)|
  {
    if regions != [] {
      assert forall rs :: rs in regions[..|regions| - 1] ==> rs in regions;
      assert regions[|regions| - 1] in regions;
      AllLabelsMonotone(regions[..|regions| - 1], s, s');
      RegionLabelsMonotone(|regions|, regions[|regions| - 1], s, s');
    }
  }

  /** The two nested loops of lines 247-254: for each colour number and each
      of its regions, skip small regions and record where the number goes. */
  method PlaceLabels(regions: seq<seq<seq<Pos>>>, minSize: int) returns (labels: seq<Label>)
    requires forall rs, r :: rs in regions && r in rs ==> |r| > 0
    ensures labels == AllLabels(regions, minSize)
    ensures forall c, r :: 1 <= c <= |regions| && r in regions[c - 1] && |r| >= minSize ==>
      Label(c, LabelPoint(r)) in labels
  {
    AllLabelsComplete(regions, minSize);
    labels := [];
    var cidx := 1;
    while cidx <= |regions|
      invariant 1 <= cidx <= |regions| + 1
      invariant labels == AllLabels(regions[..cidx - 1], minSize)
    {
      var rs := regions[cidx - 1];
      assert rs in regions;
      assert regions[..cidx] == regions[..cidx - 1] + [rs];
      assert regions[..cidx][..cidx - 1] == regions[..cidx - 1];
      ghost var before := labels;
      var j := 0;
      while j < |rs|
        invariant 0 <= j <= |rs|
        invariant labels == before + RegionLabels(cidx, rs[..j], minSize)
      {
        var region := rs[j];
        assert rs[..j + 1] == rs[..j] + [region];
        assert rs[..j + 1][..j] == rs[..j];
        assert region in rs;
        if |region| >= minSize {
          labels := labels + [Label(cidx, LabelPoint(region))];
        }
        j := j + 1;
      }
      assert rs[..j] == rs;
      cidx := cidx + 1;
    }
    assert regions[..cidx - 1] == regions;
  }

  lemma ColourMapRectangular(q: seq<seq<Rgb>>)
    requires Rectangular(q)
    ensures Rectangular(ColourMap(q)) && Width(ColourMap(q)) == Width(q)
  {}

  /** Every label sits on a pixel of the image whose colour is the one its
      number stands for in the palette. */
  lemma LabelsOnTheirColour(q: seq<seq<Rgb>>, regions: seq<seq<seq<Pos>>>, minSize: int)
    requires |regions| == |UniqueColours(q)|
    requires forall c :: 0 <= c < |regions| ==> Labelling(ColourMap(q), c + 1, regions[c])
    ensures forall rs, r :: rs in regions && r in rs ==> |r| > 0
    ensures forall l :: l in AllLabels(regions, minSize) ==>
      0 <= l.at.row < |q| && 0 <= l.at.col < |q[l.at.row]| &&
      Entry(l.number, q[l.at.row][l.at.col]) in NumberedPalette(UniqueColours(q))
  {
    var m := ColourMap(q);
    forall rs, r | rs in regions && r in rs ensures |r| > 0 {
      var c :| 0 <= c < |regions| && regions[c] == rs;
      assert Labelling(m, c + 1, regions[c]);
    }
    AllLabelsSound(regions, minSize);
    PaletteNumbering(q);
    forall l | l in AllLabels(regions, minSize)
      ensures 0 <= l.at.row < |q| && 0 <= l.at.col < |q[l.at.row]| &&
              Entry(l.number, q[l.at.row][l.at.col]) in NumberedPalette(UniqueColours(q))
    {
      var r :| r in regions[l.number - 1] && |r| >= minSize && l.at in r;
      assert Labelling(m, l.number, regions[l.number - 1]);
      assert m[l.at.row][l.at.col] == l.number;
    }
  }

  /** `color_by_number` after quantisation: the outline, the label positions
      and the numbered palette. Each label sits on a pixel whose colour is
      the one its number stands for. */
  method ColorByNumber(q: seq<seq<Rgb>>, regions: seq<seq<seq<Pos>>>, minSize: int)
    returns (outline: seq<seq<Rgb>>, labels: seq<Label>, palette: seq<Entry>)
    requires Rectangular(q)
    requires |regions| == |UniqueColours(q)|
    requires forall c :: 0 <= c < |regions| ==> Labelling(ColourMap(q), c + 1, regions[c])
    requires forall rs, r :: rs in regions && r in rs ==> |r| > 0
    ensures Rectangular(ColourMap(q))
    ensures outline == Outline(ColourMap(q))
    ensures palette == NumberedPalette(UniqueColours(q))
    ensures labels == AllLabels(regions, minSize)
    ensures forall l :: l in labels ==>
      0 <= l.at.row < |q| && 0 <= l.at.col < |q[l.at.row]| &&
      Entry(l.number, q[l.at.row][l.at.col]) in palette
    ensures forall c, r :: 1 <= c <= |regions| && r in regions[c - 1] && |r| >= minSize ==>
      Label(c, LabelPoint(r)) in labels
  {
    ColourMapRectangular(q);
    outline := Outline(ColourMap(q));
    palette := NumberedPalette(UniqueColours(q));
    LabelsOnTheirColour(q, regions, minSize);
    labels := PlaceLabels(regions, minSize);
  }
}
