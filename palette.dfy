/** The palette extractor `extract_palette`: count how often each colour of
    the quantised image occurs, sort the colours by descending count and keep
    the first n. The quantisation itself is the image library's; its pixels,
    in row-major order, are the input here. */
module Palette {
  import opened Bitmap

  /** One entry of the result: a colour and the number of pixels it has. */
  datatype Swatch = Swatch(colour: Rgb, count: nat)

  /** The distinct colours of s in order of first occurrence: the key order of
      a Python dict filled by scanning s. */
  function FirstSeen(s: seq<Rgb>): (keys: seq<Rgb>)
    ensures forall c :: c in keys <==> c in s
    ensures forall i, j :: 0 <= i < j < |keys| ==> keys[i] != keys[j]
  {
    if s == [] then []
    else
      var keys := FirstSeen(s[..|s| - 1]);
      assert forall c :: c in s <==> c in s[..|s| - 1] || c == s[|s| - 1] by {
        assert s == s[..|s| - 1] + [s[|s| - 1]];
      }
      if s[|s| - 1] in keys then keys else keys + [s[|s| - 1]]
  }

  /** The dict items for the given keys, each with its count in m. */
  function Swatches(keys: seq<Rgb>, m: multiset<Rgb>): (r: seq<Swatch>)
    ensures |r| == |keys|
    ensures forall i :: 0 <= i < |r| ==> r[i] == Swatch(keys[i], m[keys[i]])
  {
    if keys == [] then [] else [Swatch(keys[0], m[keys[0]])] + Swatches(keys[1..], m)
  }

  /** `counts.items()` after the counting loop over all of pixels. */
  function Tally(pixels: seq<Rgb>): (t: seq<Swatch>)
    ensures |t| == |FirstSeen(pixels)|
    ensures forall e :: e in t ==> e.colour in pixels && e.count == multiset(pixels)[e.colour]
  {
    Swatches(FirstSeen(pixels), multiset(pixels))
  }

  function SumCounts(s: seq<Swatch>): nat
  {
    if s == [] then 0 else s[0].count + SumCounts(s[1..])
  }

  predicate DistinctColours(s: seq<Swatch>)
  {
    forall i, j :: 0 <= i < j < |s| ==> s[i].colour != s[j].colour
  }

  /** Ordered by non-increasing count. */
  predicate NonIncreasing(s: seq<Swatch>)
  {
    forall i, j :: 0 <= i < j < |s| ==> s[i].count >= s[j].count
  }

  // ---------------------------------------------------------------------
  // The counting loop

  /** `keys` and `counts` are the dict after scanning s. */
  ghost predicate Counted(keys: seq<Rgb>, counts: map<Rgb, nat>, s: seq<Rgb>)
  {
    keys == FirstSeen(s) &&
    (forall c :: c in counts <==> c in s) &&
    (forall c :: c in counts ==> counts[c] == multiset(s)[c])
  }

  /** One iteration of the counting loop. */
  lemma CountedStep(keys: seq<Rgb>, counts: map<Rgb, nat>, s: seq<Rgb>, p: Rgb)
    requires Counted(keys, counts, s)
    ensures p in counts ==> Counted(keys, counts[p := counts[p] + 1], s + [p])
    ensures p !in counts ==> Counted(keys + [p], counts[p := 1], s + [p])
  {
    assert (s + [p])[..|s|] == s;
    assert multiset(s + [p]) == multiset(s) + multiset{p};
  }

  /** The loop of lines 187-189: `keys` is the dict's key order, `counts` its
      contents. Each colour of pixels is a key exactly once, in order of first
      occurrence, and maps to its number of occurrences. */
  method CountColours(pixels: seq<Rgb>) returns (keys: seq<Rgb>, counts: map<Rgb, nat>)
    ensures keys == FirstSeen(pixels)
    ensures forall c :: c in counts <==> c in pixels
    ensures forall c :: c in counts ==> counts[c] == multiset(pixels)[c]
  {
    keys, counts := [], map[];
    var i := 0;
    while i < |pixels|
      invariant 0 <= i <= |pixels|
      invariant Counted(keys, counts, pixels[..i])
    {
      var p := pixels[i];
      assert pixels[..i + 1] == pixels[..i] + [p];
      CountedStep(keys, counts, pixels[..i], p);
      if p in counts {
        counts := counts[p := counts[p] + 1];
      } else {
        keys := keys + [p];
        counts := counts[p := 1];
      }
      i := i + 1;
    }
    assert pixels[..i] == pixels;
  }

  /** The counts of the tally add up to the number of pixels. */
  lemma TallyTotal(pixels: seq<Rgb>)
    ensures SumCounts(Tally(pixels)) == |pixels|
  {
    SwatchesTotal(FirstSeen(pixels), pixels);
  }

  lemma {:induction false} SwatchesTotal(keys: seq<Rgb>, s: seq<Rgb>)
    requires forall i, j :: 0 <= i < j < |keys| ==> keys[i] != keys[j]
    requires forall c :: c in s ==> c in keys
    ensures SumCounts(Swatches(keys, multiset(s))) == |s|
  {
    if s == [] {
      SwatchesEmpty(keys);
    } else {
      var t, x := s[..|s| - 1], s[|s| - 1];
      assert s == t + [x];
      assert forall c :: c in t ==> c in s;
      SwatchesTotal(keys, t);
      SwatchesAdd(keys, multiset(t), x);
    }
  }

  lemma {:induction false} SwatchesEmpty(keys: seq<Rgb>)
    ensures SumCounts(Swatches(keys, multiset{})) == 0
  {
    if keys != [] {
      SwatchesEmpty(keys[1..]);
    }
  }

  /** One more occurrence of a key adds one to the total. */
  lemma {:induction false} SwatchesAdd(keys: seq<Rgb>, m: multiset<Rgb>, x: Rgb)
    requires forall i, j :: 0 <= i < j < |keys| ==> keys[i] != keys[j]
    requires x in keys
    ensures SumCounts(Swatches(keys, m + multiset{x})) == SumCounts(Swatches(keys, m)) + 1
  {
    if keys[0] == x {
      assert x !in keys[1..];
      SwatchesSame(keys[1..], m, x);
    } else {
      SwatchesAdd(keys[1..], m, x);
    }
  }

  lemma {:induction false} SwatchesSame(keys: seq<Rgb>, m: multiset<Rgb>, x: Rgb)
    requires x !in keys
    ensures Swatches(keys, m + multiset{x}) == Swatches(keys, m)
  {
    if keys != [] {
      SwatchesSame(keys[1..], m, x);
    }
  }

  // ---------------------------------------------------------------------
  // sorted(..., key=lambda x: -x[1])

  /** Places x after the entries with a larger count and before the first
      one with a count at most x's, as a stable descending sort does for an
      entry that came before all of s. */
  function Insert(x: Swatch, s: seq<Swatch>): (r: seq<Swatch>)
    ensures |r| == |s| + 1
    ensures forall y :: y in r <==> y == x || y in s
    ensures multiset(r) == multiset(s) + multiset{x}
  {
    if s == [] || s[0].count <= x.count then [x] + s
    else
      assert s == [s[0]] + s[1..];
      [s[0]] + Insert(x, s[1..])
  }

  lemma {:induction false} InsertSum(x: Swatch, s: seq<Swatch>)
    ensures SumCounts(Insert(x, s)) == SumCounts(s) + x.count
  {
    if !(s == [] || s[0].count <= x.count) {
      InsertSum(x, s[1..]);
    }
  }

  /** Inserting into a list sorted by non-increasing count keeps it sorted. */
  lemma {:induction false} InsertSorted(x: Swatch, s: seq<Swatch>)
    requires NonIncreasing(s)
    ensures NonIncreasing(Insert(x, s))
  {
    if !(s == [] || s[0].count <= x.count) {
      InsertSorted(x, s[1..]);
      var r := Insert(x, s);
      var r' := Insert(x, s[1..]);
      assert r == [s[0]] + r';
      forall y | y in r' ensures s[0].count >= y.count {
        if y in s[1..] {
          var k :| 0 <= k < |s[1..]| && s[1..][k] == y;
          assert s[k + 1] == y;
        }
      }
      forall i, j | 0 <= i < j < |r| ensures r[i].count >= r[j].count {
        if i == 0 {
          assert r[j] == r'[j - 1];
        } else {
          assert r[i] == r'[i - 1] && r[j] == r'[j - 1];
        }
      }
    }
  }

  /** Inserting an entry of a new colour keeps the colours distinct. */
  lemma {:induction false} InsertDistinct(x: Swatch, s: seq<Swatch>)
    requires DistinctColours(s) && forall y :: y in s ==> y.colour != x.colour
    ensures DistinctColours(Insert(x, s))
  {
    var r := Insert(x, s);
    if s == [] || s[0].count <= x.count {
      forall i, j | 0 <= i < j < |r| ensures r[i].colour != r[j].colour {
        if i == 0 {
          assert r[j] == s[j - 1];
        } else {
          assert r[i] == s[i - 1] && r[j] == s[j - 1];
        }
      }
    } else {
      InsertDistinct(x, s[1..]);
      var r' := Insert(x, s[1..]);
      assert r == [s[0]] + r';
      forall y | y in r' ensures s[0].colour != y.colour {
        if y in s[1..] {
          var k :| 0 <= k < |s[1..]| && s[1..][k] == y;
          assert s[k + 1] == y;
        }
      }
      forall i, j | 0 <= i < j < |r| ensures r[i].colour != r[j].colour {
        if i == 0 {
          assert r[j] == r'[j - 1];
        } else {
          assert r[i] == r'[i - 1] && r[j] == r'[j - 1];
        }
      }
    }
  }

  /** Python's stable `sorted` by descending count: the same entries, the
      same total, sorted, and distinct colours stay distinct. */
  function SortByCount(s: seq<Swatch>): (r: seq<Swatch>)
    ensures |r| == |s|
    ensures multiset(r) == multiset(s)
    ensures forall y :: y in r <==> y in s
    ensures SumCounts(r) == SumCounts(s)
    ensures NonIncreasing(r)
    ensures DistinctColours(s) ==> DistinctColours(r)
  {
    if s == [] then []
    else
      assert s == [s[0]] + s[1..];
      var rest := SortByCount(s[1..]);
      InsertSum(s[0], rest);
      InsertSorted(s[0], rest);
      DistinctTail(s);
      assert DistinctColours(s) ==> forall y :: y in rest ==> y.colour != s[0].colour;
      if DistinctColours(s) then InsertDistinct(s[0], rest); Insert(s[0], rest)
      else Insert(s[0], rest)
  }

  /** The tail of a list with distinct colours has distinct colours, none of
      them that of the head. */
  lemma DistinctTail(s: seq<Swatch>)
    requires s != []
    ensures DistinctColours(s) ==> DistinctColours(s[1..])
    ensures DistinctColours(s) ==> forall y :: y in s[1..] ==> y.colour != s[0].colour
  {
    if DistinctColours(s) {
      forall y | y in s[1..] ensures y.colour != s[0].colour {
        var k :| 0 <= k < |s[1..]| && s[1..][k] == y;
        assert s[k + 1] == y;
      }
    }
  }

  /** Python's slice s[:n], for either sign of n. */
  function Prefix<T>(s: seq<T>, n: int): (r: seq<T>)
    ensures n >= 0 ==> |r| == Min(n, |s|)
    ensures n < 0 ==> |r| == Max(0, |s| + n)
    ensures forall i :: 0 <= i < |r| ==> r[i] == s[i]
  {
    if n >= 0 then s[..Min(n, |s|)] else s[..Max(0, |s| + n)]
  }

  /** The value `extract_palette` returns for the quantised pixels. */
  function PaletteOf(pixels: seq<Rgb>, n: int): (p: seq<Swatch>)
    ensures NonIncreasing(p)
    ensures forall e :: e in p ==> e.colour in pixels && e.count == multiset(pixels)[e.colour]
  {
    Prefix(SortByCount(Tally(pixels)), n)
  }

  /** `extract_palette` after quantisation: counting loop, sort, slice. */
  method ExtractPalette(pixels: seq<Rgb>, n: int) returns (palette: seq<Swatch>)
    ensures palette == PaletteOf(pixels, n)
    ensures DistinctColours(palette) && NonIncreasing(palette)
    ensures forall e :: e in palette ==> e.colour in pixels && e.count == multiset(pixels)[e.colour]
  {
    var keys, counts := CountColours(pixels);
    var items: seq<Swatch> := [];
    var i := 0;
    while i < |keys|
      invariant 0 <= i <= |keys|
      invariant items == Swatches(keys[..i], multiset(pixels))
    {
      SwatchesSnoc(keys[..i], keys[i], multiset(pixels));
      assert keys[..i + 1] == keys[..i] + [keys[i]];
      items := items + [Swatch(keys[i], counts[keys[i]])];
      i := i + 1;
    }
    assert keys[..i] == keys;
    palette := Prefix(SortByCount(items), n);
    PaletteEntries(pixels, n);
  }

  lemma {:induction false} SwatchesSnoc(keys: seq<Rgb>, k: Rgb, m: multiset<Rgb>)
    ensures Swatches(keys + [k], m) == Swatches(keys, m) + [Swatch(k, m[k])]
  {}

  // ---------------------------------------------------------------------
  // Properties of the result

  /** The tally lists every colour of the image once, with its count. */
  lemma TallyEntries(pixels: seq<Rgb>)
    ensures |Tally(pixels)| == |FirstSeen(pixels)|
    ensures forall e :: e in Tally(pixels) <==>
      e.colour in pixels && e.count == multiset(pixels)[e.colour]
    ensures DistinctColours(Tally(pixels))
  {
    var t := Tally(pixels);
    var keys := FirstSeen(pixels);
    forall e ensures e in t <==> e.colour in pixels && e.count == multiset(pixels)[e.colour] {
      if e.colour in pixels && e.count == multiset(pixels)[e.colour] {
        var i :| 0 <= i < |keys| && keys[i] == e.colour;
        assert t[i] == e;
      }
    }
  }

  /** In a list sorted by non-increasing count, an entry after the first m
      has a count no larger than any entry among them. */
  lemma BeyondPrefix(r: seq<Swatch>, m: nat, x: Swatch, e: Swatch)
    requires NonIncreasing(r) && m <= |r|
    requires x in r[m..] && e in r[..m]
    ensures x.count <= e.count
  {
    var k :| 0 <= k < |r[m..]| && r[m..][k] == x;
    var i :| 0 <= i < m && r[..m][i] == e;
    assert r[i] == e && r[m + k] == x;
  }

  /** The palette is a prefix of the sorted tally. */
  lemma PaletteIsPrefix(pixels: seq<Rgb>, n: int)
    ensures PaletteOf(pixels, n) == SortByCount(Tally(pixels))[..|PaletteOf(pixels, n)|]
    ensures |FirstSeen(pixels)| <= n ==> PaletteOf(pixels, n) == SortByCount(Tally(pixels))
  {
    TallyEntries(pixels);
  }

  /** The palette holds distinct colours with their true counts, ordered by
      non-increasing count, and min(n, number of colours) of them for n >= 0. */
  lemma PaletteEntries(pixels: seq<Rgb>, n: int)
    ensures DistinctColours(PaletteOf(pixels, n)) && NonIncreasing(PaletteOf(pixels, n))
    ensures forall e :: e in PaletteOf(pixels, n) ==>
      e.colour in pixels && e.count == multiset(pixels)[e.colour]
    ensures n >= 0 ==> |PaletteOf(pixels, n)| == Min(n, |FirstSeen(pixels)|)
  {
    TallyEntries(pixels);
    PrefixDistinct(SortByCount(Tally(pixels)), n);
  }

  lemma PrefixDistinct(s: seq<Swatch>, n: int)
    requires DistinctColours(s)
    ensures DistinctColours(Prefix(s, n))
  {
    var p := Prefix(s, n);
    assert forall i, j :: 0 <= i < j < |p| ==> p[i] == s[i] && p[j] == s[j];
  }

  /** With at most n colours every colour is in the palette and the counts add
      up to the number of pixels. */
  lemma PaletteComplete(pixels: seq<Rgb>, n: int)
    requires |FirstSeen(pixels)| <= n
    ensures forall c :: c in pixels ==> exists e :: e in PaletteOf(pixels, n) && e.colour == c
    ensures SumCounts(PaletteOf(pixels, n)) == |pixels|
  {
    var r := SortByCount(Tally(pixels));
    TallyEntries(pixels);
    TallyTotal(pixels);
    PaletteIsPrefix(pixels, n);
    forall c | c in pixels ensures exists e :: e in r && e.colour == c {
      assert Swatch(c, multiset(pixels)[c]) in r;
    }
  }

  /** A colour left out of the palette is no more frequent than any colour
      kept. */
  lemma PaletteDominant(pixels: seq<Rgb>, n: int, c: Rgb, e: Swatch)
    requires c in pixels && e in PaletteOf(pixels, n)
    requires forall e' :: e' in PaletteOf(pixels, n) ==> e'.colour != c
    ensures multiset(pixels)[c] <= e.count
  {
    var r := SortByCount(Tally(pixels));
    var p := PaletteOf(pixels, n);
    TallyEntries(pixels);
    PaletteIsPrefix(pixels, n);
    var x := Swatch(c, multiset(pixels)[c]);
    assert r == r[..|p|] + r[|p|..];
    assert x in r && x !in r[..|p|];
    BeyondPrefix(r, |p|, x, e);
  }

  /** A uniform sequence has a single distinct colour. */
  lemma {:induction false} SolidFirstSeen(c: Rgb, size: nat)
    requires size >= 1
    ensures FirstSeen(seq(size, _ => c)) == [c]
  {
    var s := seq(size, _ => c);
    if size > 1 {
      assert s[..size - 1] == seq(size - 1, _ => c);
      SolidFirstSeen(c, size - 1);
    } else {
      assert s[..0] == [];
    }
  }

  /** An image of one colour has a one-entry palette holding all its pixels. */
  lemma SolidImage(c: Rgb, size: nat, n: int)
    requires size >= 1 && n >= 1
    ensures PaletteOf(seq(size, _ => c), n) == [Swatch(c, size)]
  {
    var pixels := seq(size, _ => c);
    SolidFirstSeen(c, size);
    TallyTotal(pixels);
    PaletteIsPrefix(pixels, n);
    assert Tally(pixels) == [Swatch(c, multiset(pixels)[c])];
  }
}
