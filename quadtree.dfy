/** The quadtree decomposer `quadtree` / `_split`: a region is either a leaf,
    painted with its mean colour, or split into four quadrants by floor
    halving, recursively. The colour-deviation test is float code and stays
    abstract: a function `uniform(x, y, bw, bh)` supplied by the caller. */
module Quadtree {
  import opened Bitmap

  /** The source's test std < threshold on the region (x, y, bw, bh). */
  type Uniformity = (int, int, int, int) -> bool

  /** Regions with a side below this are never split. */
  const MinCell := 4

  /** Outline colour of a leaf when borders are shown. */
  const BorderColour := Rgb(30, 30, 30)

  /** A region of the recursion: columns [x, x + bw), rows [y, y + bh). */
  datatype Node = Node(x: int, y: int, bw: int, bh: int, depth: int)

  function Root(w: int, h: int): Node
  {
    Node(0, 0, w, h, 0)
  }

  predicate Contains(n: Node, px: int, py: int)
  {
    n.x <= px < n.x + n.bw && n.y <= py < n.y + n.bh
  }

  /** The rectangle of a lies inside that of b. */
  predicate Within(a: Node, b: Node)
  {
    b.x <= a.x && a.x + a.bw <= b.x + b.bw && b.y <= a.y && a.y + a.bh <= b.y + b.bh
  }

  /** The rectangles of a and b share a pixel. */
  predicate Overlap(a: Node, b: Node)
  {
    a.x < b.x + b.bw && b.x < a.x + a.bw && a.y < b.y + b.bh && b.y < a.y + a.bh
  }

  predicate Disjoint(s: seq<Node>)
  {
    forall i, j :: 0 <= i < j < |s| ==> !Overlap(s[i], s[j])
  }

  /** The stopping rule of line 142: uniform enough, deep enough, or too small. */
  predicate Stops(n: Node, maxDepth: int, uniform: Uniformity): (stop: bool)
    // a region is split only if it is non-uniform, above the depth limit
    // and at least MinCell on both sides
    ensures !stop ==> !uniform(n.x, n.y, n.bw, n.bh) && n.depth < maxDepth && n.bw >= MinCell && n.bh >= MinCell
  {
    uniform(n.x, n.y, n.bw, n.bh) || n.depth >= maxDepth || Min(n.bw, n.bh) < MinCell
  }

  /** The four children, in the order of the recursive calls: the left and
      top halves get the floor half, the right and bottom ones the rest. */
  function Quadrants(n: Node): (q: seq<Node>)
    ensures |q| == 4
  {
    var hw, hh := n.bw / 2, n.bh / 2;
    [Node(n.x, n.y, hw, hh, n.depth + 1),
     Node(n.x + hw, n.y, n.bw - hw, hh, n.depth + 1),
     Node(n.x, n.y + hh, hw, n.bh - hh, n.depth + 1),
     Node(n.x + hw, n.y + hh, n.bw - hw, n.bh - hh, n.depth + 1)]
  }

  /** The quadrants partition their parent: widths and heights add up, they
      lie inside it, they do not overlap, and every pixel of the parent is in
      one of them. */
  lemma QuadrantsPartition(n: Node, px: int, py: int)
    requires n.bw >= 0 && n.bh >= 0
    ensures Quadrants(n)[0].bw + Quadrants(n)[1].bw == n.bw
    ensures Quadrants(n)[0].bh + Quadrants(n)[2].bh == n.bh
    ensures forall k :: 0 <= k < 4 ==> Within(Quadrants(n)[k], n)
    ensures Disjoint(Quadrants(n))
    ensures Contains(n, px, py) ==> exists k :: 0 <= k < 4 && Contains(Quadrants(n)[k], px, py)
  {
    var q := Quadrants(n);
    if Contains(n, px, py) {
      var k := if px < n.x + n.bw / 2 then (if py < n.y + n.bh / 2 then 0 else 2)
               else (if py < n.y + n.bh / 2 then 1 else 3);
      assert Contains(q[k], px, py);
    }
  }

  /** l is a leaf of the recursion from n: non-empty, inside n, stopped, and
      between n's depth and the depth limit. */
  predicate LeafOf(l: Node, n: Node, maxDepth: int, uniform: Uniformity)
  {
    1 <= l.bw && 1 <= l.bh && Within(l, n) && Stops(l, maxDepth, uniform) &&
    n.depth <= l.depth <= Max(n.depth, maxDepth)
  }

  /** Each quadrant of a region that is split lies inside it, one level
      deeper, and is narrower. */
  lemma QuadrantsWithin(n: Node)
    requires n.bw >= 2 && n.bh >= 0
    ensures forall k :: 0 <= k < 4 ==>
      Within(Quadrants(n)[k], n) && Quadrants(n)[k].depth == n.depth + 1 && Quadrants(n)[k].bw < n.bw
  {}

  /** A leaf of a quadrant is a leaf of its parent. */
  lemma ChildLeaves(s: seq<Node>, c: Node, n: Node, maxDepth: int, uniform: Uniformity)
    requires forall l :: l in s ==> LeafOf(l, c, maxDepth, uniform)
    requires Within(c, n) && c.depth == n.depth + 1 && n.depth < maxDepth
    ensures forall l :: l in s ==> LeafOf(l, n, maxDepth, uniform)
  {}

  /** The leaves `_split(n)` paints, in painting order. A region with an empty
      side paints nothing. */
  function Leaves(n: Node, maxDepth: int, uniform: Uniformity): (r: seq<Node>)
    ensures forall l :: l in r ==> LeafOf(l, n, maxDepth, uniform)
    decreases n.bw
  {
    if n.bw < 1 || n.bh < 1 then []
    else if Stops(n, maxDepth, uniform) then [n]
    else
      var q := Quadrants(n);
      QuadrantsWithin(n);
      var l0, l1 := Leaves(q[0], maxDepth, uniform), Leaves(q[1], maxDepth, uniform);
      var l2, l3 := Leaves(q[2], maxDepth, uniform), Leaves(q[3], maxDepth, uniform);
      ChildLeaves(l0, q[0], n, maxDepth, uniform);
      ChildLeaves(l1, q[1], n, maxDepth, uniform);
      ChildLeaves(l2, q[2], n, maxDepth, uniform);
      ChildLeaves(l3, q[3], n, maxDepth, uniform);
      (l0 + l1) + (l2 + l3)
  }

  /** A region with a side below MinCell is a single leaf. */
  lemma SmallRegionIsLeaf(n: Node, maxDepth: int, uniform: Uniformity)
    requires 1 <= n.bw && 1 <= n.bh && Min(n.bw, n.bh) < MinCell
    ensures Leaves(n, maxDepth, uniform) == [n]
  {}

  lemma DisjointConcat(a: seq<Node>, b: seq<Node>)
    requires Disjoint(a) && Disjoint(b)
    requires forall x, y :: x in a && y in b ==> !Overlap(x, y)
    ensures Disjoint(a + b)
  {
    var s := a + b;
    forall i, j | 0 <= i < j < |s| ensures !Overlap(s[i], s[j]) {
      if j < |a| {
        assert s[i] == a[i] && s[j] == a[j];
      } else if i >= |a| {
        assert s[i] == b[i - |a|] && s[j] == b[j - |a|];
      } else {
        assert s[i] in a && s[j] in b;
      }
    }
  }

  /** No two leaves share a pixel. */
  lemma {:induction false} LeavesDisjoint(n: Node, maxDepth: int, uniform: Uniformity)
    ensures Disjoint(Leaves(n, maxDepth, uniform))
    decreases n.bw
  {
    if n.bw >= 1 && n.bh >= 1 && !Stops(n, maxDepth, uniform) {
      var q := Quadrants(n);
      QuadrantsPartition(n, 0, 0);
      var a, b, c, d := Leaves(q[0], maxDepth, uniform), Leaves(q[1], maxDepth, uniform),
                        Leaves(q[2], maxDepth, uniform), Leaves(q[3], maxDepth, uniform);
      LeavesDisjoint(q[0], maxDepth, uniform);
      LeavesDisjoint(q[1], maxDepth, uniform);
      LeavesDisjoint(q[2], maxDepth, uniform);
      LeavesDisjoint(q[3], maxDepth, uniform);
      assert !Overlap(q[0], q[1]) && !Overlap(q[0], q[2]) && !Overlap(q[0], q[3]);
      assert !Overlap(q[1], q[2]) && !Overlap(q[1], q[3]) && !Overlap(q[2], q[3]);
      DisjointConcat(a, b);
      DisjointConcat(a + b, c);
      DisjointConcat(a + b + c, d);
    }
  }

  /** Every pixel of a region is covered by one of its leaves. */
  lemma {:induction false} LeavesCover(n: Node, maxDepth: int, uniform: Uniformity, px: int, py: int)
    requires Contains(n, px, py)
    ensures exists l :: l in Leaves(n, maxDepth, uniform) && Contains(l, px, py)
    decreases n.bw
  {
    if !Stops(n, maxDepth, uniform) {
      var q := Quadrants(n);
      QuadrantsPartition(n, px, py);
      var k :| 0 <= k < 4 && Contains(q[k], px, py);
      LeavesCover(q[k], maxDepth, uniform, px, py);
      var l :| l in Leaves(q[k], maxDepth, uniform) && Contains(l, px, py);
      assert l in Leaves(n, maxDepth, uniform);
    } else {
      assert n in Leaves(n, maxDepth, uniform);
    }
  }

  /** In a sequence of disjoint regions, at most one contains a pixel. */
  lemma DisjointUnique(s: seq<Node>, k: nat, k': nat, px: int, py: int)
    requires Disjoint(s) && k < |s| && k' < |s| && k != k'
    ensures !(Contains(s[k], px, py) && Contains(s[k'], px, py))
  {
    if k < k' {
      assert !Overlap(s[k], s[k']);
    } else {
      assert !Overlap(s[k'], s[k]);
    }
  }

  /** The leaves of the whole w x h canvas tile it: each lies inside the
      canvas at a depth of at most max(0, maxDepth), and each pixel of the
      canvas lies in exactly one of them. */
  lemma QuadtreeTiles(w: int, h: int, maxDepth: int, uniform: Uniformity, px: int, py: int)
    requires 0 <= px < w && 0 <= py < h
    ensures forall l :: l in Leaves(Root(w, h), maxDepth, uniform) ==>
      0 <= l.x && l.x + l.bw <= w && 0 <= l.y && l.y + l.bh <= h && l.depth <= Max(0, maxDepth)
    ensures exists k ::
      (0 <= k < |Leaves(Root(w, h), maxDepth, uniform)| &&
       Contains(Leaves(Root(w, h), maxDepth, uniform)[k], px, py))
    ensures forall k, k' ::
      (0 <= k < |Leaves(Root(w, h), maxDepth, uniform)| &&
       0 <= k' < |Leaves(Root(w, h), maxDepth, uniform)| &&
       Contains(Leaves(Root(w, h), maxDepth, uniform)[k], px, py) &&
       Contains(Leaves(Root(w, h), maxDepth, uniform)[k'], px, py)) ==> k == k'
  {
    var L := Leaves(Root(w, h), maxDepth, uniform);
    LeavesCover(Root(w, h), maxDepth, uniform, px, py);
    var l :| l in L && Contains(l, px, py);
    var k :| 0 <= k < |L| && L[k] == l;
    LeavesDisjoint(Root(w, h), maxDepth, uniform);
    forall k, k' | 0 <= k < |L| && 0 <= k' < |L| && k != k'
      ensures !(Contains(L[k], px, py) && Contains(L[k'], px, py))
    {
      DisjointUnique(L, k, k', px, py);
    }
  }

  // ---------------------------------------------------------------------
  // Painting

  /** A leaf can be painted from src: non-empty and inside the grid. */
  predicate Paintable(src: seq<seq<Rgb>>, n: Node)
  {
    1 <= n.bw && 1 <= n.bh && InGrid(src, n.x, n.y, n.bw, n.bh)
  }

  predicate OnEdge(n: Node, px: int, py: int)
  {
    px == n.x || px == n.x + n.bw - 1 || py == n.y || py == n.y + n.bh - 1
  }

  /** The colour `draw.rectangle` gives pixel (px, py) of leaf n: the
      truncated mean colour of the leaf, with a one-pixel outline in
      BorderColour when borders are shown. */
  function LeafColour(src: seq<seq<Rgb>>, n: Node, borders: bool, px: int, py: int): (c: Rgb)
    requires Paintable(src, n)
    ensures !borders || !OnEdge(n, px, py) ==> c == MeanColour(src, n.x, n.y, n.bw, n.bh)
    ensures borders && OnEdge(n, px, py) ==> c == BorderColour
  {
    if borders && OnEdge(n, px, py) then BorderColour else MeanColour(src, n.x, n.y, n.bw, n.bh)
  }

  /** Colour of pixel (px, py) after painting the leaves in order onto a
      canvas where it had colour c: a later leaf paints over an earlier one. */
  function Painted(leaves: seq<Node>, src: seq<seq<Rgb>>, borders: bool, px: int, py: int, c: Rgb): (r: Rgb)
    requires forall l :: l in leaves ==> Paintable(src, l)
    // the pixel keeps its colour or takes that of a leaf covering it
    ensures r == c || exists l :: l in leaves && Contains(l, px, py) && r == LeafColour(src, l, borders, px, py)
  {
    if leaves == [] then c
    else
      var c' := if Contains(leaves[0], px, py) then LeafColour(src, leaves[0], borders, px, py) else c;
      Painted(leaves[1..], src, borders, px, py, c')
  }

  lemma {:induction false} PaintedAppend(a: seq<Node>, b: seq<Node>, src: seq<seq<Rgb>>, borders: bool, px: int, py: int, c: Rgb)
    requires forall l :: l in a + b ==> Paintable(src, l)
    ensures Painted(a + b, src, borders, px, py, c) ==
            Painted(b, src, borders, px, py, Painted(a, src, borders, px, py, c))
  {
    if a == [] {
      assert a + b == b;
    } else {
      assert (a + b)[1..] == a[1..] + b;
      var c' := if Contains(a[0], px, py) then LeafColour(src, a[0], borders, px, py) else c;
      PaintedAppend(a[1..], b, src, borders, px, py, c');
    }
  }

  /** Leaves that miss a pixel leave it as it was. */
  lemma {:induction false} PaintedOutside(s: seq<Node>, src: seq<seq<Rgb>>, borders: bool, px: int, py: int, c: Rgb)
    requires forall l :: l in s ==> Paintable(src, l)
    requires forall l :: l in s ==> !Contains(l, px, py)
    ensures Painted(s, src, borders, px, py, c) == c
  {
    if s != [] {
      assert s[0] in s;
      PaintedOutside(s[1..], src, borders, px, py, c);
    }
  }

  /** With disjoint leaves the painting order does not matter: a pixel ends
      with the colour of the one leaf that contains it. */
  lemma {:induction false} PaintedInside(s: seq<Node>, k: nat, src: seq<seq<Rgb>>, borders: bool, px: int, py: int, c: Rgb)
    requires forall l :: l in s ==> Paintable(src, l)
    requires Disjoint(s) && k < |s| && Contains(s[k], px, py)
    ensures Painted(s, src, borders, px, py, c) == LeafColour(src, s[k], borders, px, py)
  {
    if k == 0 {
      forall l | l in s[1..] ensures !Contains(l, px, py) {
        var t :| 0 <= t < |s[1..]| && s[1..][t] == l;
        assert !Overlap(s[0], s[t + 1]);
      }
      PaintedOutside(s[1..], src, borders, px, py, LeafColour(src, s[0], borders, px, py));
    } else {
      assert !Overlap(s[0], s[k]);
      PaintedInside(s[1..], k - 1, src, borders, px, py, c);
    }
  }

  // ---------------------------------------------------------------------
  // The recursion over the canvas

  /** `draw.rectangle` for one leaf: every pixel of the leaf gets its leaf
      colour, every other pixel of the canvas keeps its colour. */
  method FillLeaf(src: seq<seq<Rgb>>, canvas: array2<Rgb>, n: Node, borders: bool)
    requires canvas.Length0 == |src| && canvas.Length1 == Width(src) && Paintable(src, n)
    modifies canvas
    ensures forall i, j :: 0 <= i < canvas.Length0 && 0 <= j < canvas.Length1 ==>
      canvas[i, j] == if Contains(n, j, i) then LeafColour(src, n, borders, j, i) else old(canvas[i, j])
  {
    var avg := MeanColour(src, n.x, n.y, n.bw, n.bh);
    var i := n.y;
    while i < n.y + n.bh
      invariant n.y <= i <= n.y + n.bh
      invariant forall a, b :: 0 <= a < canvas.Length0 && 0 <= b < canvas.Length1 ==>
        canvas[a, b] == if n.y <= a < i && Contains(n, b, a) then LeafColour(src, n, borders, b, a) else old(canvas[a, b])
    {
      var j := n.x;
      while j < n.x + n.bw
        invariant n.x <= j <= n.x + n.bw
        invariant forall a, b :: 0 <= a < canvas.Length0 && 0 <= b < canvas.Length1 ==>
          canvas[a, b] == if (n.y <= a < i || (a == i && n.x <= b < j)) && Contains(n, b, a)
                          then LeafColour(src, n, borders, b, a) else old(canvas[a, b])
      {
        canvas[i, j] := if borders && OnEdge(n, j, i) then BorderColour else avg;
        j := j + 1;
      }
      i := i + 1;
    }
  }

  /** `_split`: paints the leaves of region n onto the canvas, in order. */
  method Split(src: seq<seq<Rgb>>, canvas: array2<Rgb>, n: Node, maxDepth: int, uniform: Uniformity, borders: bool)
    requires canvas.Length0 == |src| && canvas.Length1 == Width(src) && Rectangular(src)
    requires 0 <= n.x && 0 <= n.y && n.x + n.bw <= Width(src) && n.y + n.bh <= |src|
    modifies canvas
    ensures forall l :: l in Leaves(n, maxDepth, uniform) ==> Paintable(src, l)
    ensures forall i, j :: 0 <= i < canvas.Length0 && 0 <= j < canvas.Length1 ==>
      canvas[i, j] == Painted(Leaves(n, maxDepth, uniform), src, borders, j, i, old(canvas[i, j]))
    decreases n.bw
  {
    if n.bw < 1 || n.bh < 1 {
      return;
    }
    if Stops(n, maxDepth, uniform) {
      FillLeaf(src, canvas, n, borders);
      return;
    }
    var q := Quadrants(n);
    QuadrantsPartition(n, 0, 0);
    ghost var A, B, C, D := Leaves(q[0], maxDepth, uniform), Leaves(q[1], maxDepth, uniform),
                            Leaves(q[2], maxDepth, uniform), Leaves(q[3], maxDepth, uniform);
    label s0:
    Split(src, canvas, q[0], maxDepth, uniform, borders);
    label s1:
    Split(src, canvas, q[1], maxDepth, uniform, borders);
    label s2:
    Split(src, canvas, q[2], maxDepth, uniform, borders);
    label s3:
    Split(src, canvas, q[3], maxDepth, uniform, borders);
    assert Leaves(n, maxDepth, uniform) == A + B + C + D;
    forall i, j | 0 <= i < canvas.Length0 && 0 <= j < canvas.Length1
      ensures canvas[i, j] == Painted(A + B + C + D, src, borders, j, i, old(canvas[i, j]))
    {
      PaintedAppend(A, B, src, borders, j, i, old(canvas[i, j]));
      PaintedAppend(A + B, C, src, borders, j, i, old(canvas[i, j]));
      PaintedAppend(A + B + C, D, src, borders, j, i, old(canvas[i, j]));
    }
  }

  /** `quadtree` on the working bitmap src: a canvas of the same size on
      which every pixel has the colour of the one leaf that contains it. */
  method Decompose(src: seq<seq<Rgb>>, maxDepth: int, uniform: Uniformity, borders: bool) returns (canvas: array2<Rgb>)
    requires Rectangular(src)
    ensures fresh(canvas) && canvas.Length0 == |src| && canvas.Length1 == Width(src)
    ensures forall l :: l in Leaves(Root(Width(src), |src|), maxDepth, uniform) ==> Paintable(src, l)
    ensures forall i, j, k ::
      (0 <= i < canvas.Length0 && 0 <= j < canvas.Length1 &&
       0 <= k < |Leaves(Root(Width(src), |src|), maxDepth, uniform)| &&
       Contains(Leaves(Root(Width(src), |src|), maxDepth, uniform)[k], j, i)) ==>
      canvas[i, j] == LeafColour(src, Leaves(Root(Width(src), |src|), maxDepth, uniform)[k], borders, j, i)
  {
    canvas := new Rgb[|src|, Width(src)]((i, j) => Black);
    Split(src, canvas, Root(Width(src), |src|), maxDepth, uniform, borders);
    ghost var L := Leaves(Root(Width(src), |src|), maxDepth, uniform);
    LeavesDisjoint(Root(Width(src), |src|), maxDepth, uniform);
    forall i, j, k | 0 <= i < canvas.Length0 && 0 <= j < canvas.Length1 && 0 <= k < |L| && Contains(L[k], j, i)
      ensures canvas[i, j] == LeafColour(src, L[k], borders, j, i)
    {
      PaintedInside(L, k, src, borders, j, i, Black);
    }
  }
}
