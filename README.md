# Image transformation engine: a Dafny model

This project models the image-transformation engine `transforms.py`. Each
transform first shrinks its input with `_constrain`. It then works on the
pixel grid with integer index arithmetic, around calls into the imaging
library. The model keeps that arithmetic and proves what it guarantees:

- `_constrain` (`loader.dfy`): the size clamp. The source's rounding can
  produce a zero-pixel side; see "Findings".
- `to_ascii` and `watermark_text` (`ascii.dfy`): brightness to a character
  ramp index, the row join, and the credit line.
- `quadtree` / `_split` (`quadtree.dfy`): recursive floor-halving of
  rectangles. The leaves tile the canvas, the depth is bounded, and each leaf
  paints only its own rectangle with its truncated mean colour. The painting
  is imperative: a recursive method writing into an `array2` canvas.
- `extract_palette` (`palette.dfy`): the dictionary counting loop, which keeps
  insertion order, then the stable sort by descending count and the Python
  slice.
- `color_by_number` (`paint_by_number.dfy`):
  - the 1-based colour map in the sorted order of `np.unique`;
  - the right/bottom-neighbour boundary and the black-and-white outline;
  - the minimum region size;
  - the label point: the floored centroid, or else the nearest member pixel;
  - the numbered palette.
- `mosaic` after the Voronoi diagram is built (`mosaic.dfy`): the skip rule,
  vertex clamping, the vertex-average centre, the sample half-size in
  [3, 20], the sample window, and the window's mean fill.
- `glitch` (`glitch.dfy`): the cyclic red/blue column roll, the clamped block
  paste and the saturating scanlines. All are in-place updates of an `array2`,
  and the random draws are parameters.

Shared pieces: `bitmap.dfy` holds bytes, RGB pixels, rectangular grids and
the per-channel truncated mean. `arith.dfy` holds the small facts about
products and floor division that the other proofs use.

Library results enter as inputs with contracts:

- the quantised pixels;
- the grey-scale grid after resizing;
- the connected components of `ndimage.label`;
- the Voronoi diagram;
- the colour-deviation test, as a function `uniform(x, y, bw, bh)`.

## Model

| member | source | states |
|---|---|---|
| Loader.ConstrainAsWritten | transforms.py:15-23 | the size as written: unchanged when the longest side is within the cap; otherwise each side s' satisfies s' * longest <= side * cap < (s' + 1) * longest, so it is floor(side * cap / longest) and the aspect ratio is kept up to rounding down; no side grows, and the longest side becomes exactly the cap |
| Loader.LongestHitsCap | transforms.py:19-21 | when shrinking, the longest side scales to exactly the cap |
| Loader.ScaleDown | transforms.py:19-21 | scaling by cap / longest never grows a side, never makes it negative, and keeps it within the cap |
| Loader.AsWrittenCollapsesShortSide | transforms.py:20-21 | a 1 x 2000 image with cap 800 is given width 0 |
| Loader.Constrain | transforms.py:15-23 | corrected size: unchanged within the cap; otherwise each side is floor(side * cap / longest) raised to 1 where that is 0, so the aspect ratio is kept up to rounding; each side is max(1, the as-written side), at least 1 and at most the original, the longest is the cap, and the side order is kept |
| Loader.ScaledIsFloor | transforms.py:20-21 | side * cap / longest, in floor division, is the largest integer whose product with longest is at most side * cap |
| Loader.ScalingKeepsOrder | transforms.py:21 | the scaled sides keep their order |
| Loader.ConstrainAgreesWhenNonEmpty | transforms.py:20-21 | whenever the source's rounding leaves both sides non-empty, the corrected size equals the source's |
| Ascii.Charset | transforms.py:68-80 | every ramp has 5 to 70 characters and no newline; an unknown name gets the standard ramp |
| Ascii.RampIndex | transforms.py:89 | the clipped ramp index is in [0, n) |
| Ascii.RampIndexIsFloor | transforms.py:89 | the index is exactly floor(p * n / 256) |
| Ascii.RampIndexMonotone | transforms.py:89 | a brighter pixel never gets an earlier character |
| Ascii.RampIndexEnds | transforms.py:89 | brightness 0 maps to the first character and 255 to the last (n <= 256) |
| Ascii.RowText | transforms.py:91 | one character per pixel, each the ramp character of that pixel's index |
| Ascii.Join | transforms.py:91 | `"\n".join`: the text starts with the first line, followed by a newline when there is a second line |
| Ascii.JoinLayout | transforms.py:91 | joining equal-length lines puts character j of line i at i * (w + 1) + j, with a newline after every line but the last |
| Ascii.AsciiLines | transforms.py:91 | one line per pixel row, each that row's text |
| Ascii.AsciiLayout | transforms.py:88-91 | the joined text has h * (w + 1) - 1 characters: each pixel's ramp character at its position, and newlines between rows |
| Ascii.ToAscii | transforms.py:78-91 | the text has h lines of exactly w characters joined by newlines, with no trailing newline, and each character is its pixel's ramp character |
| Ascii.NewlinesAreSeparators | transforms.py:91 | a character of the text is a newline exactly when it sits at the end of a row other than the last |
| Ascii.WatermarkText | transforms.py:44-46 | the original text is kept as a prefix, and what follows it is exactly a blank line and the credit |
| Ascii.WatermarkRoundTrip | transforms.py:44-46 | removing the trailing credit from watermarked text gives the original text back |
| Bitmap.MeanColour | transforms.py:143 | each channel of the fill is the floor of the channel's mean over the rectangle |
| Bitmap.FlatMean | transforms.py:143 | a rectangle of one colour averages to that colour |
| Quadtree.Stops | transforms.py:142 | a region is split only if it fails the uniformity test, lies above the depth limit, and is at least 4 pixels on both sides |
| Quadtree.Quadrants | transforms.py:146-150 | four children, in the order of the recursive calls |
| Quadtree.QuadrantsPartition | transforms.py:146-150 | the halves bw // 2 and bw - bw // 2 (likewise bh) add up; the children lie inside the parent, do not overlap, and cover it |
| Quadtree.Leaves | transforms.py:132-150 | every leaf is non-empty, inside its region, satisfies the stopping rule of line 142, and has a depth between the region's and the depth limit |
| Quadtree.SmallRegionIsLeaf | transforms.py:142 | a region with a side below 4 is a single leaf |
| Quadtree.LeavesDisjoint | transforms.py:132-150 | no two leaves share a pixel |
| Quadtree.LeavesCover | transforms.py:132-150 | every pixel of the region is in some leaf |
| Quadtree.QuadtreeTiles | transforms.py:152 | from the root, every leaf lies in the canvas with depth at most max(0, max_depth), and every pixel lies in exactly one leaf |
| Quadtree.LeafColour | transforms.py:143-144 | a leaf's pixel gets the outline colour on the rectangle's edge when borders are on, and the leaf's mean colour otherwise |
| Quadtree.Painted | transforms.py:144 | after painting leaves in order, a pixel keeps its colour or has that of a leaf containing it |
| Quadtree.PaintedAppend | transforms.py:144 | painting two lists of leaves in turn is painting their concatenation |
| Quadtree.PaintedOutside | transforms.py:144 | leaves that do not contain a pixel leave its colour unchanged |
| Quadtree.PaintedInside | transforms.py:144 | among disjoint leaves, a pixel gets the colour of the one leaf that contains it |
| Quadtree.FillLeaf | transforms.py:143-144 | the rectangle gets the leaf's mean colour, with the outline colour on its edge when borders are on; every other pixel is unchanged |
| Quadtree.Split | transforms.py:132-150 | the canvas after `_split` is the old canvas painted with the region's leaves in order |
| Quadtree.Decompose | transforms.py:124-153 | a fresh canvas of the image's size in which every pixel has the colour of the one leaf that contains it |
| Palette.FirstSeen | transforms.py:187-189 | the dictionary keys: exactly the colours of the pixels, each once |
| Palette.Tally | transforms.py:187-191 | `counts.items()`: one item per distinct colour, each pairing a colour of the image with its number of occurrences |
| Palette.Swatches | transforms.py:191 | the dictionary items: each key paired with its count |
| Palette.CountColours | transforms.py:187-189 | after the loop, the keys are the colours in first-seen order, and each maps to its number of occurrences |
| Palette.TallyTotal | transforms.py:187-189 | the counts add up to the number of pixels |
| Palette.Insert | transforms.py:191 | inserting one entry gives the old multiset of entries plus that entry |
| Palette.SortByCount | transforms.py:191 | the sort is a permutation (same multiset of entries), keeps the total, orders entries by non-increasing count, and keeps colours distinct |
| Palette.Prefix | transforms.py:191 | Python's `s[:n]` for either sign of n: length min(n, len) or max(0, len + n), same elements |
| Palette.PaletteOf | transforms.py:191 | the returned list is ordered by non-increasing count, and each entry pairs a colour of the image with its true count |
| Palette.ExtractPalette | transforms.py:179-191 | the palette has distinct colours, non-increasing counts, and each entry's count is the true count of a colour of the image |
| Palette.TallyEntries | transforms.py:187-191 | an item is in the tally exactly when it pairs a colour of the image with its true count |
| Palette.PaletteIsPrefix | transforms.py:191 | the palette is a prefix of the sorted tally; the whole tally when there are at most n colours |
| Palette.PaletteEntries | transforms.py:191 | distinct, non-increasing, true counts, and exactly min(n, number of colours) entries for n >= 0 |
| Palette.PaletteComplete | transforms.py:187-191 | with at most n colours, every colour appears and the counts sum to the number of pixels |
| Palette.PaletteDominant | transforms.py:191 | a colour cut off by the slice is no more frequent than any colour kept |
| Palette.SolidImage | transforms.py:179-191 | a one-colour image gives the single entry (colour, pixel count) |
| PaintByNumber.UniqueOf | transforms.py:232 | strictly sorted, with the same colours as the input |
| PaintByNumber.ColourMap | transforms.py:233 | the colour map has the image's shape |
| PaintByNumber.ColourMapRoundTrip | transforms.py:232-233 | each index is in 1..k, the index maps back to the pixel's colour, and two pixels share an index exactly when they share a colour |
| PaintByNumber.NumberedPalette | transforms.py:269 | one entry per distinct colour |
| PaintByNumber.PaletteNumbering | transforms.py:269 | numbers are exactly 1..k; numbers and colours are in one-to-one correspondence; the palette colours are exactly the image colours; every pixel's (index, colour) pair is an entry |
| PaintByNumber.HDiff | transforms.py:235 | the right-neighbour difference mask, padded to the image's shape |
| PaintByNumber.VDiff | transforms.py:236 | the bottom-neighbour difference mask, padded to the image's shape |
| PaintByNumber.BoundaryMask | transforms.py:237 | the boundary mask has the image's shape |
| PaintByNumber.Outline | transforms.py:239-240 | the outline has the image's shape |
| PaintByNumber.OutlineIffBoundary | transforms.py:235-240 | a pixel is black iff its right or bottom neighbour has another index, and white otherwise |
| PaintByNumber.OutlineIffColourChange | transforms.py:233-240 | a pixel of the outline is black iff its right or bottom neighbour has another colour |
| PaintByNumber.Labelling | transforms.py:248-249 | the components `ndimage.label` returns for one colour index: every pixel of that index lies in exactly one component |
| PaintByNumber.SqDist | transforms.py:260 | the squared distance is non-negative and zero exactly at the centroid |
| PaintByNumber.Centroid | transforms.py:257 | each coordinate is the floor of the mean of the region's coordinates |
| PaintByNumber.ArgMin | transforms.py:260 | the index of the first smallest distance |
| PaintByNumber.LabelPoint | transforms.py:256-261 | the label point is a pixel of the region: the floored centroid when that is in the region, else a member nearest to it |
| PaintByNumber.CentroidInRange | transforms.py:257 | the floored centroid of pixels inside the image is inside the image |
| PaintByNumber.MinSize | transforms.py:226 | the minimum region size is at least 20 |
| PaintByNumber.MinSizeMonotone | transforms.py:226 | a larger percentage never lowers the minimum |
| PaintByNumber.RegionLabels | transforms.py:250-261 | at most one label per region, each carrying the colour's number |
| PaintByNumber.AllLabels | transforms.py:247-261 | every label's number is a colour number in 1..k |
| PaintByNumber.RegionLabelsSound | transforms.py:251-261 | every label of a colour is centred on a pixel of one of its regions with at least min_size pixels |
| PaintByNumber.AllLabelsSound | transforms.py:247-261 | every label carries a colour number in 1..k and lies in a large enough region of that colour |
| PaintByNumber.RegionLabelsComplete | transforms.py:250-261 | every region of the colour with at least min_size pixels gets a label with the colour's number at its label point |
| PaintByNumber.AllLabelsComplete | transforms.py:247-261 | every region of any colour c with at least min_size pixels gets a label with number c at its label point |
| PaintByNumber.RegionLabelsMonotone | transforms.py:253 | raising the minimum size never adds labels for a colour |
| PaintByNumber.AllLabelsMonotone | transforms.py:253 | raising the minimum size never adds labels |
| PaintByNumber.PlaceLabels | transforms.py:247-267 | the nested loops produce the labels of AllLabels, colour by colour; every region of at least min_size pixels gets its colour number at its label point |
| PaintByNumber.LabelsOnTheirColour | transforms.py:247-269 | every label lies in the image, on a pixel whose colour is the palette colour of the label's number |
| PaintByNumber.ColorByNumber | transforms.py:211-271 | outline, palette and labels as specified above; every label sits on a pixel of its numbered colour, and every large enough region is labelled |
| Mosaic.Corners | transforms.py:296-297 | four extra seeds, each outside the doubled canvas on both axes |
| Mosaic.Diagram | transforms.py:300-310 | the Voronoi input that the loop indexes: every seed's region index is valid, and every vertex of that region is -1 or a valid vertex index |
| Mosaic.ClampReal | transforms.py:312 | the clamped coordinate is in [0, hi], and unchanged when already there |
| Mosaic.ClampInt | transforms.py:320-321 | the clamped value is in [0, hi], and unchanged when already there |
| Mosaic.ClampVertex | transforms.py:311-314 | a clamped vertex lies in [0, w-1] x [0, h-1], and one already there is unchanged |
| Mosaic.HalfSize | transforms.py:323 | 3 <= r_size <= 20 |
| Mosaic.Clipped | transforms.py:311-314 | corner i is vertex region[i] clamped into the canvas; a vertex already inside the canvas is kept unchanged |
| Mosaic.Xs | transforms.py:318 | one integer per corner, the whole part of each non-negative x coordinate |
| Mosaic.Ys | transforms.py:319 | one integer per corner, the whole part of each non-negative y coordinate |
| Mosaic.Centre | transforms.py:320-321 | for coordinates in [0, hi], the clamped centre is in [0, hi] and is the floor of their mean |
| Mosaic.TruncatedInRange | transforms.py:318-319 | the truncated coordinates stay in [0, w-1] and [0, h-1] |
| Mosaic.Window | transforms.py:324-325 | the window is non-empty, holds the centre, lies in [0, n), and is at most 2 r_size wide |
| Mosaic.FilledCell | transforms.py:326-329 | the cell built from a valid centre, half-size and window is well formed, and its fill is the window's truncated mean |
| Mosaic.BuildCell | transforms.py:317-329 | the cell keeps the polygon; its centre is the floored average of the truncated corners; its half-size is r_size of those corners; its window is the one of lines 324-325 around the centre; its fill is the window's truncated mean |
| Mosaic.CellFor | transforms.py:306-333 | a region is skipped iff it is empty, has a vertex at infinity or has fewer than three vertices; otherwise its cell is well formed, its polygon is the region's clamped vertices, and the rest of the cell is BuildCell of that polygon |
| Mosaic.CentreClampRedundant | transforms.py:320-321 | the centre clamp never changes the floored vertex average |
| Mosaic.CellsOf | transforms.py:305-333 | at most one cell per seed |
| Mosaic.CellsWellFormed | transforms.py:305-333 | at most one cell per seed, and every drawn cell is well formed |
| Mosaic.SkippedRegion | transforms.py:307-308 | a skipped region adds no cell |
| Mosaic.DrawCells | transforms.py:305-333 | the loop produces the cells of the given seeds' regions, in order |
| Mosaic.Mosaic | transforms.py:278-335 | the cells of the first num_cells seeds: at most num_cells of them, each well formed |
| Glitch.Roll | transforms.py:354-357 | red[i][j] comes from column (j - s) mod w, blue from (j + s) mod w, green is unchanged; the shape is kept |
| Glitch.RollInverse | transforms.py:356-357 | rolling back by the same amount restores the image |
| Glitch.RollZero | transforms.py:354-357 | a roll by zero changes nothing |
| Glitch.RollRow | transforms.py:356-357 | writes one rolled row and leaves the other rows unchanged |
| Glitch.RollChannels | transforms.py:354-357 | the image after the in-place roll is the roll of the old image |
| Glitch.NewColumn | transforms.py:368 | x_new lies in [0, w - bw], and equals x + shift when that fits |
| Glitch.Paste | transforms.py:366-369 | the block's rows in [xn, xn + bw) hold the copied block; every other pixel is unchanged |
| Glitch.ValidBlock | transforms.py:361-365 | a draw in the ranges of the five `rng.integers` calls exists only for a non-empty image, with the block above the last row |
| Glitch.ValidBlockFits | transforms.py:361-364 | draws within their ranges take the block from inside the image |
| Glitch.BlockNeedsThreeRows | transforms.py:361-363 | valid block draws exist only for images at least three rows high |
| Glitch.PasteInPlace | transforms.py:366-369 | pasting a block back at its own column changes nothing |
| Glitch.CopyBlock | transforms.py:366 | a fresh array holding the block's pixels |
| Glitch.WriteRow | transforms.py:369 | writes one block row at column xn; everything else is unchanged |
| Glitch.WriteBlock | transforms.py:369 | writes the block at (y, xn); everything else is unchanged |
| Glitch.PasteAt | transforms.py:366-369 | the image after copy and write is the paste of the old image |
| Glitch.PasteBlock | transforms.py:360-369 | one block iteration in place: the paste at the clamped column |
| Glitch.ValidLine | transforms.py:373-375 | a scanline draw exists only for an image with at least one row |
| Glitch.AddClip | transforms.py:376-379 | the int16 sum clipped to [0, 255]: exact when in range, 255 above, never lower for b >= 0 |
| Glitch.Lighten | transforms.py:376-379 | every channel is lightened: unchanged for b = 0, never lower for b >= 0 |
| Glitch.Brighten | transforms.py:376-379 | brightening keeps the image's shape |
| Glitch.BrightenEffect | transforms.py:376-379 | a scanline never lowers a channel, gives min(255, v + b) inside rows [y, y + t), and leaves other rows untouched |
| Glitch.BrightenCompose | transforms.py:376-379 | two scanlines over the same rows act as one with the summed brightness |
| Glitch.Scanline | transforms.py:372-379 | the image after one in-place scanline is the brightened old image |
| Glitch.Blocks | transforms.py:359-369 | the block pastes in draw order keep the image's shape |
| Glitch.Scanlines | transforms.py:371-379 | the scanlines in draw order keep the image's shape |
| Glitch.ValidDraws | transforms.py:359-375 | 2 intensity block draws and 4 intensity scanline draws, none when intensity <= 0, each in the range of its `rng.integers` calls; block draws exist only for images of at least three rows |
| Glitch.GlitchOf | transforms.py:353-379 | roll by 3 intensity, then the blocks, then the scanlines; the shape is kept |
| Glitch.GlitchZeroIntensity | transforms.py:353-379 | at intensity 0 nothing is drawn and the image is unchanged |
| Glitch.GlitchImage | transforms.py:342-381 | the image after the in-place effect is GlitchOf of the old image |

## Left out

- `app.py` is page glue (widgets, uploads, charts, downloads) and is not part of this model.
- `pixelate`, `sketch` and the image `watermark` are image-library calls (resampling, quantisation, edge detection, text drawing) with only a little size arithmetic of their own (`max(1, width // block_size)` in `pixelate`, the bar height `max(22, w // 30)` and its halves in `watermark`), outside the modelled core.
- Resampling in `_constrain` and `to_ascii`, `quantize`, grey-scale conversion and the Voronoi construction are library calls. Their results are inputs: the grey grid, the quantised pixels, the diagram.
- `posterize` is float level quantisation (`factor = 256.0 / levels`, `floor(v / factor) * factor + factor / 2`, clipped to [0, 255]) followed by a library saturation boost; like the other float computations it is not part of this model.
- The float colour standard deviation of the quadtree test is abstracted as the caller's `uniform` function.
- The float 0.45 aspect factor and `new_h` of `to_ascii` are abstracted: the grey grid arrives already at its final size.
- Loader.ConstrainAsWritten: takes int(side * (max_dim / longest)) as the exact floor of side * max_dim / longest. Float rounding of the ratio can make the two differ by one for some sizes; in particular the longest side can land one below the cap (a longest side of 1078 under cap 800 gives int(1078 * (800 / 1078)) = 799), so Loader.LongestHitsCap holds for the exact quotient, not for every float result.
- Bitmap.MeanColour: takes `int()` of the float mean as the exact floor of the integer mean. Float summation error is not modelled.
- PaintByNumber.MinSize: the percentage is an exact real, not a float.
- `ndimage.label` is an input. Its contract: each component is non-empty, row-major, of one colour index, pairwise disjoint, covering that colour, and closed under same-colour 4-adjacency. The connectedness of each single component is not stated.
- Font loading, text rendering, polygon rasterisation and the mosaic border stroke are drawing-library behaviour. The model produces each label and each mosaic cell as what the source hands to the drawing call. The quadtree's `draw.rectangle` is painted in the model, pixel by pixel, with its fill and one-pixel outline.
- `np.random.default_rng` is left out: the drawn values are parameters, each constrained to the range of its `rng.integers` call.
- Glitch.GlitchImage: requires valid draws. With intensity above 0, an image under three rows (or with no columns) has none, because `rng.integers` gets an empty range and raises; that error is not modelled.
- Palette.SortByCount: the definition is stable like Python's `sorted`, but no contract states the tie order (the contract states the permutation and the order by count).
- Mosaic.CellFor: the `patch.size == 0` test of line 327 is omitted. The window always holds the centre, so it never fires (Mosaic.Window).

## Findings

| source | as written | input that shows it | evidently intended | confidence | as-written member | corrected member |
|---|---|---|---|---|---|---|
| transforms.py:20-21 | each side becomes int(side * max_dim / longest), which is 0 for a short enough side | a 1 x 2000 image with max_dim 800 is resized to 0 x 800, a size the image library refuses | no side below one pixel: max(1, int(side * ratio)) | not executed; rounding taken as exact | Loader.AsWrittenCollapsesShortSide | Loader.Constrain |
