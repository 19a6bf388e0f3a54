/** The glitch effect `glitch`: on a copy of the working bitmap, roll the red
    channel right and the blue channel left, paste displaced copies of
    horizontal blocks, and brighten a few scanlines, all in place. The
    random draws are parameters, each within the range its `rng.integers`
    call draws from. */
module Glitch {
  import opened Arith
  import opened Bitmap

  /** The pixels of an image array, as a grid of rows. */
  function Grid(a: array2<Rgb>): (g: seq<seq<Rgb>>)
    reads a
    ensures |g| == a.Length0 && forall i :: 0 <= i < |g| ==> |g[i]| == a.Length1
    ensures forall i, j :: 0 <= i < a.Length0 && 0 <= j < a.Length1 ==> g[i][j] == a[i, j]
  {
    seq(a.Length0, i requires 0 <= i < a.Length0 reads a =>
      seq(a.Length1, j requires 0 <= j < a.Length1 reads a => a[i, j]))
  }

  /** A grid of h rows of w pixels. */
  predicate Shape(g: seq<seq<Rgb>>, h: int, w: int)
  {
    0 <= w && |g| == h && forall i :: 0 <= i < |g| ==> |g[i]| == w
  }

  lemma GridIs(a: array2<Rgb>, g: seq<seq<Rgb>>)
    requires Shape(g, a.Length0, a.Length1)
    requires forall i, j :: 0 <= i < a.Length0 && 0 <= j < a.Length1 ==> a[i, j] == g[i][j]
    ensures Grid(a) == g
  {
    forall i | 0 <= i < a.Length0 ensures Grid(a)[i] == g[i] {}
  }

  // ---------------------------------------------------------------------
  // Channel roll

  /** Pixel (i, j) after the roll: red from s columns to the left, blue from
      s columns to the right, cyclically; green stays. */
  function Rolled(g: seq<seq<Rgb>>, w: int, s: int, i: int, j: int): Rgb
    requires Shape(g, |g|, w) && 0 <= i < |g| && 0 <= j < w
  {
    Rgb(g[i][(j - s) % w].r, g[i][j].g, g[i][(j + s) % w].b)
  }

  /** `np.roll(r, s, axis=1)` on red and `np.roll(b, -s, axis=1)` on blue. */
  function Roll(g: seq<seq<Rgb>>, w: int, s: int): (r: seq<seq<Rgb>>)
    requires Shape(g, |g|, w)
    ensures Shape(r, |g|, w)
    ensures forall i, j :: 0 <= i < |g| && 0 <= j < w ==> r[i][j] == Rolled(g, w, s, i, j)
  {
    seq(|g|, i requires 0 <= i < |g| =>
      seq(w, j requires 0 <= j < w => Rolled(g, w, s, i, j)))
  }

  lemma RollBackPixel(g: seq<seq<Rgb>>, w: int, s: int, i: int, j: int)
    requires Shape(g, |g|, w) && 0 <= i < |g| && 0 <= j < w
    ensures Rolled(Roll(g, w, s), w, -s, i, j) == g[i][j]
  {
    var once: seq<seq<Rgb>> := Roll(g, w, s);
    var jr: int := (j - -s) % w;
    var jb: int := (j + -s) % w;
    assert 0 <= jr < w && 0 <= jb < w;
    ModShiftBack(j, s, w);
    ModShiftBack(j, -s, w);
    assert (jr - s) % w == j;
    assert (jb + s) % w == j;
    assert once[i][jr].r == g[i][j].r;
    assert once[i][jb].b == g[i][j].b;
  }

  /** Rolling back by the same amount restores the image. */
  lemma RollInverse(g: seq<seq<Rgb>>, w: int, s: int)
    requires Shape(g, |g|, w)
    ensures Roll(Roll(g, w, s), w, -s) == g
  {
    var r := Roll(Roll(g, w, s), w, -s);
    forall i | 0 <= i < |g| ensures r[i] == g[i] {
      forall j | 0 <= j < w ensures r[i][j] == g[i][j] {
        RollBackPixel(g, w, s, i, j);
      }
    }
  }

  /** A roll by zero changes nothing. */
  lemma RollZero(g: seq<seq<Rgb>>, w: int)
    requires Shape(g, |g|, w)
    ensures Roll(g, w, 0) == g
  {
    var r := Roll(g, w, 0);
    forall i | 0 <= i < |g| ensures r[i] == g[i] {
      forall j | 0 <= j < w ensures r[i][j] == g[i][j] {
        DivModUnique(j, w, 0, j);
      }
    }
  }

  /** Row i of the roll, written into the image from the unchanged copy g. */
  method RollRow(img: array2<Rgb>, snap: seq<seq<Rgb>>, s: int, i: int)
    requires Shape(snap, img.Length0, img.Length1) && 0 <= i < img.Length0
    modifies img
    ensures forall a, b :: 0 <= a < img.Length0 && 0 <= b < img.Length1 ==>
      img[a, b] == if a == i then Rolled(snap, img.Length1, s, a, b) else old(img[a, b])
  {
    var w := img.Length1;
    var j := 0;
    while j < w
      invariant 0 <= j <= w
      invariant forall a, b :: 0 <= a < img.Length0 && 0 <= b < w ==>
        img[a, b] == if a == i && b < j then Rolled(snap, w, s, a, b) else old(img[a, b])
    {
      img[i, j] := Rgb(snap[i][(j - s) % w].r, snap[i][j].g, snap[i][(j + s) % w].b);
      j := j + 1;
    }
  }

  /** Lines 354-357 in place; `snap` is the copy `np.roll` reads from. */
  method RollChannels(img: array2<Rgb>, s: int)
    modifies img
    ensures Grid(img) == Roll(old(Grid(img)), img.Length1, s)
  {
    var h, w := img.Length0, img.Length1;
    var snap := Grid(img);
    var i := 0;
    while i < h
      invariant 0 <= i <= h
      invariant forall a, b :: 0 <= a < h && 0 <= b < w ==>
        img[a, b] == if a < i then Rolled(snap, w, s, a, b) else snap[a][b]
    {
      RollRow(img, snap, s, i);
      i := i + 1;
    }
    GridIs(img, Roll(snap, w, s));
  }

  // ---------------------------------------------------------------------
  // Block displacement

  /** One block's draws, in the order of lines 361-365. */
  datatype BlockDraw = BlockDraw(bh: int, bw: int, y: int, x: int, shift: int)

  /** Each draw lies in the half-open range its `rng.integers` call uses
      (Python's `-w // 6` is the floor of -w / 6, as Dafny's division of an
      integer by a positive one). */
  predicate ValidBlock(h: int, w: int, d: BlockDraw): (ok: bool)
    // a draw exists only for a non-empty image, with the block above the last row
    ensures ok ==> 1 <= w && d.y + d.bh < h
  {
    2 <= d.bh < Max(3, h / 8) &&
    w / 4 <= d.bw < w &&
    0 <= d.y < h - d.bh &&
    0 <= d.x < Max(1, w - d.bw) &&
    (-w) / 6 <= d.shift < w / 6
  }

  /** `max(0, min(w - bw, x + shift))`: where the block lands. */
  function NewColumn(x: int, shift: int, w: int, bw: int): (xn: int)
    requires 0 <= bw <= w
    ensures 0 <= xn <= w - bw
    ensures 0 <= x + shift <= w - bw ==> xn == x + shift
  {
    Max(0, Min(w - bw, x + shift))
  }

  /** Pixel (i, j) after `result[y:y+bh, xn:xn+bw] = block`, where block is
      the copy of rows [y, y+bh) and columns [x, x+bw) taken beforehand. */
  function Pasted(g: seq<seq<Rgb>>, w: int, y: int, bh: int, x: int, xn: int, bw: int, i: int, j: int): Rgb
    requires Shape(g, |g|, w) && 0 <= x && x + bw <= w && 0 <= xn && xn + bw <= w
    requires 0 <= i < |g| && 0 <= j < w
  {
    if y <= i < y + bh && xn <= j < xn + bw then g[i][x + (j - xn)] else g[i][j]
  }

  /** The grid after the block is pasted. */
  function Paste(g: seq<seq<Rgb>>, w: int, y: int, bh: int, x: int, bw: int, xn: int): (r: seq<seq<Rgb>>)
    requires Shape(g, |g|, w) && 0 <= x && x + bw <= w && 0 <= xn && xn + bw <= w
    ensures Shape(r, |g|, w)
    ensures forall i, j :: 0 <= i < |g| && 0 <= j < w ==> r[i][j] == Pasted(g, w, y, bh, x, xn, bw, i, j)
  {
    seq(|g|, i requires 0 <= i < |g| =>
      seq(w, j requires 0 <= j < w => Pasted(g, w, y, bh, x, xn, bw, i, j)))
  }

  /** A valid draw takes the block from inside the image. */
  lemma ValidBlockFits(h: int, w: int, d: BlockDraw)
    requires ValidBlock(h, w, d)
    ensures 0 <= d.y && d.y + d.bh < h && 0 <= d.x && d.x + d.bw < w && 0 <= d.bw
  {}

  /** Valid draws exist only for images at least three rows high: for
      fewer, `rng.integers(0, h - bh)` has an empty range. */
  lemma BlockNeedsThreeRows(h: int, w: int, d: BlockDraw)
    requires ValidBlock(h, w, d)
    ensures h >= 3
  {}

  /** Pasting a block back where it came from changes nothing. (Line 367
      assigns rows [y, y+bh) to themselves and is not a step of the model.) */
  lemma PasteInPlace(g: seq<seq<Rgb>>, w: int, y: int, bh: int, x: int, bw: int)
    requires Shape(g, |g|, w) && 0 <= x && x + bw <= w
    requires 0 <= y <= y + bh <= |g|
    ensures Paste(g, w, y, bh, x, bw, x) == g
  {
    forall i | 0 <= i < |g| ensures Paste(g, w, y, bh, x, bw, x)[i] == g[i] {}
  }

  /** `result[y:y+bh, x:x+bw].copy()`, where g is the image's grid. */
  method CopyBlock(img: array2<Rgb>, ghost g: seq<seq<Rgb>>, y: int, bh: int, x: int, bw: int)
    returns (block: array2<Rgb>)
    requires Shape(g, img.Length0, img.Length1)
    requires forall a, b :: 0 <= a < img.Length0 && 0 <= b < img.Length1 ==> img[a, b] == g[a][b]
    requires 0 <= y && 0 <= bh && y + bh <= img.Length0 && 0 <= x && 0 <= bw && x + bw <= img.Length1
    ensures fresh(block) && block.Length0 == bh && block.Length1 == bw
    ensures forall a, b :: 0 <= a < bh && 0 <= b < bw ==> block[a, b] == g[y + a][x + b]
  {
    block := new Rgb[bh, bw]((a, b) => Black);
    var i := 0;
    while i < bh
      invariant 0 <= i <= bh
      invariant forall a, b :: 0 <= a < i && 0 <= b < bw ==> block[a, b] == g[y + a][x + b]
    {
      var j := 0;
      while j < bw
        invariant 0 <= j <= bw
        invariant forall a, b :: (0 <= a < i && 0 <= b < bw) || (a == i && 0 <= b < j) ==>
          block[a, b] == g[y + a][x + b]
      {
        block[i, j] := img[y + i, x + j];
        j := j + 1;
      }
      i := i + 1;
    }
  }

  /** Writes row i of `block` into row `row` of the image from column xn. */
  method WriteRow(img: array2<Rgb>, block: array2<Rgb>, i: int, row: int, xn: int)
    requires block != img && 0 <= i < block.Length0
    requires 0 <= row < img.Length0 && 0 <= xn && xn + block.Length1 <= img.Length1
    modifies img
    ensures forall a, b :: 0 <= a < img.Length0 && 0 <= b < img.Length1 ==>
      img[a, b] == if a == row && xn <= b < xn + block.Length1 then block[i, b - xn] else old(img[a, b])
  {
    var j := 0;
    while j < block.Length1
      invariant 0 <= j <= block.Length1
      invariant forall a, b :: 0 <= a < img.Length0 && 0 <= b < img.Length1 ==>
        img[a, b] == if a == row && xn <= b < xn + j then block[i, b - xn] else old(img[a, b])
    {
      img[row, xn + j] := block[i, j];
      j := j + 1;
    }
  }

  /** `result[y:y+bh, xn:xn+bw] = block`. */
  method WriteBlock(img: array2<Rgb>, block: array2<Rgb>, y: int, xn: int)
    requires block != img
    requires 0 <= y && y + block.Length0 <= img.Length0 && 0 <= xn && xn + block.Length1 <= img.Length1
    modifies img
    ensures forall a, b :: 0 <= a < img.Length0 && 0 <= b < img.Length1 ==>
      img[a, b] == if y <= a < y + block.Length0 && xn <= b < xn + block.Length1
                   then block[a - y, b - xn] else old(img[a, b])
  {
    var i := 0;
    while i < block.Length0
      invariant 0 <= i <= block.Length0
      invariant forall a, b :: 0 <= a < img.Length0 && 0 <= b < img.Length1 ==>
        img[a, b] == if y <= a < y + i && xn <= b < xn + block.Length1
                     then block[a - y, b - xn] else old(img[a, b])
    {
      WriteRow(img, block, i, y + i, xn);
      i := i + 1;
    }
  }

  /** Copies rows [y, y+bh), columns [x, x+bw) and writes the copy back at
      column xn of the same rows. */
  method PasteAt(img: array2<Rgb>, y: int, bh: int, x: int, bw: int, xn: int)
    requires 0 <= y && 0 <= bh && y + bh <= img.Length0
    requires 0 <= x && 0 <= bw && x + bw <= img.Length1 && 0 <= xn && xn + bw <= img.Length1
    modifies img
    ensures Grid(img) == Paste(old(Grid(img)), img.Length1, y, bh, x, bw, xn)
  {
    ghost var g := Grid(img);
    var block := CopyBlock(img, g, y, bh, x, bw);
    WriteBlock(img, block, y, xn);
    GridIs(img, Paste(g, img.Length1, y, bh, x, bw, xn));
  }

  /** Lines 360-369 for one block, in place. Line 367 assigns rows to
      themselves and is left out (see PasteInPlace). */
  method PasteBlock(img: array2<Rgb>, d: BlockDraw)
    requires ValidBlock(img.Length0, img.Length1, d)
    modifies img
    ensures Grid(img) == Paste(old(Grid(img)), img.Length1, d.y, d.bh, d.x, d.bw,
                               NewColumn(d.x, d.shift, img.Length1, d.bw))
  {
    ValidBlockFits(img.Length0, img.Length1, d);
    PasteAt(img, d.y, d.bh, d.x, d.bw, NewColumn(d.x, d.shift, img.Length1, d.bw));
  }

  // ---------------------------------------------------------------------
  // Scanlines

  /** One scanline's draws, in the order of lines 373-375. */
  datatype LineDraw = LineDraw(y: int, thickness: int, brightness: int)

  predicate ValidLine(h: int, d: LineDraw): (ok: bool)
    ensures ok ==> 1 <= h
  {
    0 <= d.y < h && 1 <= d.thickness < 3 && 0 <= d.brightness < 40
  }

  /** `np.clip(v + b, 0, 255)` on one channel, computed in int16 (which
      holds 255 + 39 without overflow). */
  function AddClip(v: Byte, b: int): (r: Byte)
    ensures 0 <= v + b <= 255 ==> r == v + b
    ensures b >= 0 ==> v <= r
    ensures v + b > 255 ==> r == 255
  {
    Max(0, Min(255, v + b))
  }

  function Lighten(c: Rgb, b: int): (r: Rgb)
    ensures b == 0 ==> r == c
    ensures b >= 0 ==> c.r <= r.r && c.g <= r.g && c.b <= r.b
  {
    Rgb(AddClip(c.r, b), AddClip(c.g, b), AddClip(c.b, b))
  }

  /** Rows [y, min(h, y + t)) lightened by b. */
  function Brighten(g: seq<seq<Rgb>>, w: int, y: int, t: int, b: int): (r: seq<seq<Rgb>>)
    requires Shape(g, |g|, w)
    ensures Shape(r, |g|, w)
  {
    seq(|g|, i requires 0 <= i < |g| =>
      seq(w, j requires 0 <= j < w =>
        if y <= i < Min(|g|, y + t) then Lighten(g[i][j], b) else g[i][j]))
  }

  /** A scanline never darkens a channel, saturates at 255, and leaves the
      rows outside it untouched. */
  lemma BrightenEffect(g: seq<seq<Rgb>>, w: int, y: int, t: int, b: int, i: nat, j: nat, k: nat)
    requires Shape(g, |g|, w) && b >= 0 && i < |g| && j < w && k < 3
    ensures Channel(g[i][j], k) <= Channel(Brighten(g, w, y, t, b)[i][j], k)
    ensures y <= i < y + t ==> Channel(Brighten(g, w, y, t, b)[i][j], k) == Min(255, Channel(g[i][j], k) + b)
    ensures !(y <= i < y + t) ==> Brighten(g, w, y, t, b)[i][j] == g[i][j]
  {}

  /** Two scanlines over the same rows act as one with the summed
      brightness, since saturating addition composes. */
  lemma BrightenCompose(g: seq<seq<Rgb>>, w: int, y: int, t: int, b: int, b': int)
    requires Shape(g, |g|, w) && b >= 0 && b' >= 0
    ensures Brighten(Brighten(g, w, y, t, b), w, y, t, b') == Brighten(g, w, y, t, b + b')
  {
    var r, r' := Brighten(Brighten(g, w, y, t, b), w, y, t, b'), Brighten(g, w, y, t, b + b');
    forall i | 0 <= i < |g| ensures r[i] == r'[i] {
      assert forall j :: 0 <= j < w ==> r[i][j] == r'[i][j];
    }
  }

  /** Lines 372-379 for one scanline, in place. */
  method Scanline(img: array2<Rgb>, d: LineDraw)
    requires ValidLine(img.Length0, d)
    modifies img
    ensures Grid(img) == Brighten(old(Grid(img)), img.Length1, d.y, d.thickness, d.brightness)
  {
    var h, w := img.Length0, img.Length1;
    ghost var g := Grid(img);
    ghost var target := Brighten(g, w, d.y, d.thickness, d.brightness);
    var i := d.y;
    while i < Min(h, d.y + d.thickness)
      invariant d.y <= i <= Min(h, d.y + d.thickness)
      invariant forall a, b :: 0 <= a < h && 0 <= b < w ==>
        img[a, b] == if a < i then target[a][b] else g[a][b]
    {
      var j := 0;
      while j < w
        invariant 0 <= j <= w
        invariant forall a, b :: 0 <= a < h && 0 <= b < w ==>
          img[a, b] == if a < i || (a == i && b < j) then target[a][b] else g[a][b]
      {
        img[i, j] := Lighten(img[i, j], d.brightness);
        j := j + 1;
      }
      i := i + 1;
    }
    GridIs(img, target);
  }

  // ---------------------------------------------------------------------
  // The whole effect

  function Blocks(g: seq<seq<Rgb>>, w: int, ds: seq<BlockDraw>): (r: seq<seq<Rgb>>)
    requires Shape(g, |g|, w)
    requires forall d :: d in ds ==> ValidBlock(|g|, w, d)
    ensures Shape(r, |g|, w)
  {
    if ds == [] then g
    else
      var d := ds[|ds| - 1];
      assert d in ds;
      assert forall e :: e in ds[..|ds| - 1] ==> e in ds;
      var prev := Blocks(g, w, ds[..|ds| - 1]);
      ValidBlockFits(|g|, w, d);
      Paste(prev, w, d.y, d.bh, d.x, d.bw, NewColumn(d.x, d.shift, w, d.bw))
  }

  function Scanlines(g: seq<seq<Rgb>>, w: int, ds: seq<LineDraw>): (r: seq<seq<Rgb>>)
    requires Shape(g, |g|, w)
    ensures Shape(r, |g|, w)
  {
    if ds == [] then g
    else
      var d := ds[|ds| - 1];
      Brighten(Scanlines(g, w, ds[..|ds| - 1]), w, d.y, d.thickness, d.brightness)
  }

  /** The draws of one call: 2 intensity blocks and 4 intensity scanlines,
      each in its range. */
  predicate ValidDraws(h: int, w: int, intensity: int, blocks: seq<BlockDraw>, lines: seq<LineDraw>): (ok: bool)
    // `range(intensity * 2)` and `range(intensity * 4)` are empty for intensity <= 0
    ensures ok && intensity <= 0 ==> blocks == [] && lines == []
    ensures ok && intensity > 0 ==> |blocks| == 2 * intensity && |lines| == 4 * intensity
    // a block draw exists only for an image of at least three rows
    ensures ok && blocks != [] ==> h >= 3
  {
    assert blocks != [] ==> blocks[0] in blocks;
    |blocks| == Max(0, 2 * intensity) && |lines| == Max(0, 4 * intensity) &&
    (forall d :: d in blocks ==> ValidBlock(h, w, d)) &&
    (forall d :: d in lines ==> ValidLine(h, d))
  }

  function GlitchOf(g: seq<seq<Rgb>>, w: int, intensity: int, blocks: seq<BlockDraw>, lines: seq<LineDraw>): (r: seq<seq<Rgb>>)
    requires Shape(g, |g|, w) && ValidDraws(|g|, w, intensity, blocks, lines)
    ensures Shape(r, |g|, w)
  {
    Scanlines(Blocks(Roll(g, w, 3 * intensity), w, blocks), w, lines)
  }

  /** At intensity 0 nothing is drawn and the image comes back unchanged. */
  lemma GlitchZeroIntensity(g: seq<seq<Rgb>>, w: int)
    requires Shape(g, |g|, w)
    ensures ValidDraws(|g|, w, 0, [], [])
    ensures GlitchOf(g, w, 0, [], []) == g
  {
    RollZero(g, w);
  }

  /** `glitch` on the working bitmap, in place. */
  method GlitchImage(img: array2<Rgb>, intensity: int, blocks: seq<BlockDraw>, lines: seq<LineDraw>)
    requires ValidDraws(img.Length0, img.Length1, intensity, blocks, lines)
    modifies img
    ensures Grid(img) == GlitchOf(old(Grid(img)), img.Length1, intensity, blocks, lines)
  {
    var h, w := img.Length0, img.Length1;
    ghost var g := Grid(img);
    RollChannels(img, 3 * intensity);
    ghost var rolled := Grid(img);
    var k := 0;
    while k < |blocks|
      invariant 0 <= k <= |blocks|
      invariant forall d :: d in blocks[..k] ==> d in blocks
      invariant Grid(img) == Blocks(rolled, w, blocks[..k])
    {
      assert blocks[..k + 1][..k] == blocks[..k];
      assert blocks[k] in blocks;
      PasteBlock(img, blocks[k]);
      k := k + 1;
      assert forall d :: d in blocks[..k] ==> d in blocks;
    }
    assert blocks[..k] == blocks;
    ghost var pasted := Grid(img);
    k := 0;
    while k < |lines|
      invariant 0 <= k <= |lines|
      invariant Grid(img) == Scanlines(pasted, w, lines[..k])
    {
      assert lines[..k + 1][..k] == lines[..k];
      assert lines[k] in lines;
      Scanline(img, lines[k]);
      k := k + 1;
    }
    assert lines[..k] == lines;
  }
}
