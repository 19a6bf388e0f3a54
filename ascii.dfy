/** The ASCII mapper `to_ascii` and the text watermark `watermark_text`.
    The grey-scale pixels come from the image library (resize to `width`
    columns and `new_h` rows, then conversion to luminance); the model starts
    from that grid and keeps the ramp lookup and the row join. */
module Ascii {
  import opened Arith
  import opened Bitmap

  const Standard: string := "@%#*+=-:. "
  const Blocks: string := "\U{2588}\U{2593}\U{2592}\U{2591} "
  const Minimal: string := "#=:. "
  // the 70-character ramp, written in pieces of ten
  const Detailed: string :=
    "$@B%8&WM#*" + "oahkbdpqwm" + "ZO0QLCJUYX" + "zcvunxrjft" + "/\\|()1{}[]" + "?-_+~<>i!l" + "I;:,\"^`'. "

  const Credit: string := "Powered by Economic Integrity LLC  \U{2022}  sentimize.ai"

  /** The character ramp for a charset name, darkest first; an unknown name
      falls back to the standard ramp. */
  function Charset(name: string): (ramp: string)
    ensures 5 <= |ramp| <= 70
    ensures '\n' !in ramp
    ensures name !in {"standard", "blocks", "minimal", "detailed"} ==> ramp == Standard
  {
    if name == "blocks" then Blocks
    else if name == "minimal" then Minimal
    else if name == "detailed" then Detailed
    else Standard
  }

  function Clip(v: int, lo: int, hi: int): int
  {
    Min(Max(v, lo), hi)
  }

  /** Ramp position of brightness p for a ramp of n characters:
      floor(p / 256 * n) clipped to [0, n - 1]. */
  function RampIndex(p: Byte, n: int): (k: int)
    requires n >= 1
    ensures 0 <= k < n
  {
    Clip(p * n / 256, 0, n - 1)
  }

  /** The clip never binds: floor(p * n / 256) is already a valid position. */
  lemma RampIndexIsFloor(p: Byte, n: int)
    requires n >= 1
    ensures RampIndex(p, n) == p * n / 256
  {
    MulMono(p, 255, n);
    assert n * p == p * n && n * 255 == 256 * n - n;
    DivBounds(p * n, 256);
    MulLtCancel(p * n / 256, n, 256);
  }

  /** A brighter pixel never maps to an earlier (darker) character. */
  lemma RampIndexMonotone(p: Byte, q: Byte, n: int)
    requires n >= 1 && p <= q
    ensures RampIndex(p, n) <= RampIndex(q, n)
  {
    MulMono(p, q, n);
    assert n * p == p * n && n * q == q * n;
    DivMono(p * n, q * n, 256);
  }

  /** Black maps to the first character and white to the last, for every
      ramp of at most 256 characters. */
  lemma RampIndexEnds(n: int)
    requires 1 <= n <= 256
    ensures RampIndex(0, n) == 0
    ensures RampIndex(255, n) == n - 1
  {
    DivBounds(255 * n, 256);
    MulLtCancel(255 * n / 256, n, 256);
    assert 256 * (n - 1) <= 255 * n;
    MulLtCancel(n - 2, 255 * n / 256, 256);
  }

  /** One row of pixels as text. */
  function RowText(row: seq<Byte>, ramp: string): (line: string)
    requires |ramp| >= 1
    ensures |line| == |row|
    ensures forall j :: 0 <= j < |row| ==> line[j] == ramp[RampIndex(row[j], |ramp|)]
  {
    seq(|row|, j requires 0 <= j < |row| => ramp[RampIndex(row[j], |ramp|)])
  }

  /** "\n".join(lines) */
  function Join(lines: seq<string>): (text: string)
    ensures |lines| > 0 ==> |lines[0]| <= |text| && text[..|lines[0]|] == lines[0]
    ensures |lines| > 1 ==> |lines[0]| < |text| && text[|lines[0]|] == '\n'
  {
    if |lines| == 0 then ""
    else if |lines| == 1 then lines[0]
    else lines[0] + "\n" + Join(lines[1..])
  }

  /** Where row i starts in text whose rows are w characters plus a
      separator: i * (w + 1). */
  function Offset(i: nat, w: nat): nat
  {
    if i == 0 then 0 else Offset(i - 1, w) + w + 1
  }

  lemma {:induction false} OffsetIsProduct(i: nat, w: nat)
    ensures Offset(i, w) == i * (w + 1)
  {
    if i > 0 {
      OffsetIsProduct(i - 1, w);
      MulPred(i, w + 1);
    }
  }

  lemma {:induction false} JoinLength(lines: seq<string>, w: nat)
    requires |lines| >= 1
    requires forall i :: 0 <= i < |lines| ==> |lines[i]| == w
    ensures |Join(lines)| == Offset(|lines|, w) - 1
  {
    if |lines| > 1 {
      JoinLength(lines[1..], w);
      OffsetShift(|lines| - 1, w);
    }
  }

  lemma {:induction false} OffsetShift(i: nat, w: nat)
    ensures Offset(i + 1, w) == (w + 1) + Offset(i, w)
  {}

  /** Position j of row i of the joined text: character j of line i when
      j < w, the separator when j == w. */
  lemma {:induction false} JoinAt(lines: seq<string>, w: nat, i: nat, j: nat)
    requires forall i :: 0 <= i < |lines| ==> |lines[i]| == w
    requires i < |lines| && (j < w || (j == w && i < |lines| - 1))
    ensures |Join(lines)| == Offset(|lines|, w) - 1
    ensures Offset(i, w) + j < |Join(lines)|
    ensures Join(lines)[Offset(i, w) + j] == if j < w then lines[i][j] else '\n'
  {
    JoinLength(lines, w);
    if i > 0 {
      JoinAt(lines[1..], w, i - 1, j);
      assert Join(lines) == lines[0] + "\n" + Join(lines[1..]);
    }
  }

  /** Lines of equal width w joined by newlines: character j of line i sits at
      Offset(i, w) + j and each separator at Offset(i, w) + w. */
  lemma JoinLayout(lines: seq<string>, w: nat)
    requires |lines| >= 1
    requires forall i :: 0 <= i < |lines| ==> |lines[i]| == w
    ensures |Join(lines)| == Offset(|lines|, w) - 1
    ensures forall i, j :: 0 <= i < |lines| && 0 <= j < w ==>
      Offset(i, w) + j < |Join(lines)| && Join(lines)[Offset(i, w) + j] == lines[i][j]
    ensures forall i :: 0 <= i < |lines| - 1 ==>
      Offset(i, w) + w < |Join(lines)| && Join(lines)[Offset(i, w) + w] == '\n'
  {
    JoinLength(lines, w);
    forall i, j | 0 <= i < |lines| && 0 <= j < w
      ensures Offset(i, w) + j < |Join(lines)| && Join(lines)[Offset(i, w) + j] == lines[i][j]
    {
      JoinAt(lines, w, i, j);
    }
    forall i | 0 <= i < |lines| - 1
      ensures Offset(i, w) + w < |Join(lines)| && Join(lines)[Offset(i, w) + w] == '\n'
    {
      JoinAt(lines, w, i, w);
    }
  }

  /** The rows of the text, before joining. */
  function AsciiLines(grey: seq<seq<Byte>>, ramp: string): (lines: seq<string>)
    requires |ramp| >= 1
    ensures |lines| == |grey|
    ensures forall i :: 0 <= i < |grey| ==> lines[i] == RowText(grey[i], ramp)
  {
    seq(|grey|, i requires 0 <= i < |grey| => RowText(grey[i], ramp))
  }

  lemma AsciiLayout(grey: seq<seq<Byte>>, ramp: string)
    requires |ramp| >= 1 && |grey| >= 1 && Rectangular(grey)
    ensures |Join(AsciiLines(grey, ramp))| == Offset(|grey|, Width(grey)) - 1
    ensures forall i, j :: 0 <= i < |grey| && 0 <= j < Width(grey) ==>
      Offset(i, Width(grey)) + j < |Join(AsciiLines(grey, ramp))| &&
      Join(AsciiLines(grey, ramp))[Offset(i, Width(grey)) + j] == ramp[RampIndex(grey[i][j], |ramp|)]
    ensures forall i :: 0 <= i < |grey| - 1 ==>
      Offset(i, Width(grey)) + Width(grey) < |Join(AsciiLines(grey, ramp))| &&
      Join(AsciiLines(grey, ramp))[Offset(i, Width(grey)) + Width(grey)] == '\n'
  {
    var lines := AsciiLines(grey, ramp);
    var w := Width(grey);
    JoinLength(lines, w);
    forall i, j | 0 <= i < |grey| && 0 <= j < w
      ensures Offset(i, w) + j < |Join(lines)| && Join(lines)[Offset(i, w) + j] == ramp[RampIndex(grey[i][j], |ramp|)]
    {
      JoinAt(lines, w, i, j);
      assert lines[i][j] == RowText(grey[i], ramp)[j];
    }
    forall i | 0 <= i < |grey| - 1
      ensures Offset(i, w) + w < |Join(lines)| && Join(lines)[Offset(i, w) + w] == '\n'
    {
      JoinAt(lines, w, i, w);
    }
  }

  /** `to_ascii` on the grey-scale grid the image library produced: every
      pixel becomes its ramp character, rows are joined by newlines with no
      trailing newline. */
  function ToAscii(grey: seq<seq<Byte>>, ramp: string): (text: string)
    requires |ramp| >= 1 && |grey| >= 1 && Rectangular(grey)
    ensures |text| == Offset(|grey|, Width(grey)) - 1
    ensures forall i, j :: 0 <= i < |grey| && 0 <= j < Width(grey) ==>
      Offset(i, Width(grey)) + j < |text| &&
      text[Offset(i, Width(grey)) + j] == ramp[RampIndex(grey[i][j], |ramp|)]
    ensures forall i :: 0 <= i < |grey| - 1 ==>
      Offset(i, Width(grey)) + Width(grey) < |text| && text[Offset(i, Width(grey)) + Width(grey)] == '\n'
  {
    AsciiLayout(grey, ramp);
    Join(AsciiLines(grey, ramp))
  }

  /** Every position of a text of n rows is a character or a separator of
      exactly one row. */
  lemma {:induction false} SplitPosition(k: nat, w: nat, n: nat) returns (i: nat, j: nat)
    requires k < Offset(n, w) - 1
    ensures i < n && j <= w && (j == w ==> i < n - 1)
    ensures k == Offset(i, w) + j
  {
    if k <= w {
      i, j := 0, k;
      if k == w {
        assert n != 1;
      }
    } else {
      var i', j' := SplitPosition(k - (w + 1), w, n - 1);
      OffsetShift(i', w);
      i, j := i' + 1, j';
    }
  }

  lemma {:induction false} OffsetUnique(i: nat, j: nat, i': nat, j': nat, w: nat)
    requires j <= w && j' <= w && Offset(i, w) + j == Offset(i', w) + j'
    ensures i == i' && j == j'
  {
    if i > 0 && i' > 0 {
      OffsetUnique(i - 1, j, i' - 1, j', w);
    }
  }

  /** With a ramp free of newlines, the newlines of the text are exactly the
      row separators, so the text is |grey| lines of Width(grey) characters
      and does not end in a newline. */
  lemma NewlinesAreSeparators(grey: seq<seq<Byte>>, ramp: string, k: nat)
    requires |ramp| >= 1 && '\n' !in ramp && |grey| >= 1 && Rectangular(grey)
    requires k < |ToAscii(grey, ramp)|
    ensures ToAscii(grey, ramp)[k] == '\n' <==>
      exists i :: 0 <= i < |grey| - 1 && k == Offset(i, Width(grey)) + Width(grey)
  {
    var w := Width(grey);
    var text := ToAscii(grey, ramp);
    var i, j := SplitPosition(k, w, |grey|);
    if j < w {
      var c := ramp[RampIndex(grey[i][j], |ramp|)];
      assert text[k] == c && c in ramp;
      forall i' | 0 <= i' < |grey| - 1 ensures k != Offset(i', w) + w {
        if k == Offset(i', w) + w {
          OffsetUnique(i, j, i', w, w);
        }
      }
    }
  }

  /** `watermark_text`: the credit line after a blank line. */
  function WatermarkText(text: string): (r: string)
    ensures |r| == |text| + 2 + |Credit|
    ensures r[..|text|] == text
    ensures r[|text|..] == "\n\n" + Credit
  {
    text + "\n\n" + Credit
  }

  /** Removes a trailing credit added by WatermarkText, if there is one. */
  function StripWatermark(s: string): (r: Option<string>)
  {
    var tail := "\n\n" + Credit;
    if |s| >= |tail| && s[|s| - |tail|..] == tail then Some(s[..|s| - |tail|]) else None
  }

  /** The credit can always be recognised and removed again. */
  lemma WatermarkRoundTrip(text: string)
    ensures StripWatermark(WatermarkText(text)) == Some(text)
  {
    var r := WatermarkText(text);
    var tail := "\n\n" + Credit;
    assert r == text + tail;
    assert r[|r| - |tail|..] == tail;
    assert r[..|r| - |tail|] == text;
  }
}
