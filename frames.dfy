/**
 * Building one text-art frame from a grayscale grid (app.py, `_convert_to_ascii`),
 * and splitting a frame back into its lines as `str.splitlines` does in `play`.
 */
module Frames {
  import opened Options
  import opened Glyphs
  import opened Viewport

  /** A grayscale image as rows of pixels, the numpy array `gray`. */
  type Grid = seq<seq<Pixel>>

  predicate IsGrid(g: Grid, height: nat, width: nat) {
    |g| == height && forall r :: 0 <= r < |g| ==> |g[r]| == width
  }

  /**
   * What the OpenCV stage yields for one still-image file: Unreadable when
   * `imread` and `imdecode` both give None or an enhancement step raises;
   * otherwise `sample(h, w)`, the enhanced grayscale image resized to h rows
   * of w pixels.
   */
  datatype Still = Unreadable | Readable(sample: (nat, nat) -> Grid)

  /** The resize collaborator returns exactly the requested shape. */
  ghost predicate ResizesExactly(s: Still) {
    s.Readable? ==> forall h: nat, w: nat :: IsGrid(s.sample(h, w), h, w)
  }

  /** One text row: a glyph per pixel, in pixel order (the `"".join` comprehension). */
  function RowText(row: seq<Pixel>): (line: string)
    ensures |line| == |row|
    ensures forall j :: 0 <= j < |row| ==> line[j] == Glyph(row[j])
  {
    if row == [] then [] else RowText(row[..|row| - 1]) + [Glyph(row[|row| - 1])]
  }

  /** The frame string: every row's text followed by a newline, rows in order. */
  function FrameText(g: Grid): string {
    if g == [] then "" else RowText(g[0]) + "\n" + FrameText(g[1..])
  }

  /** The lines a frame is expected to split into. */
  function RowTexts(g: Grid): (lines: seq<string>)
    ensures |lines| == |g|
    ensures forall r :: 0 <= r < |g| ==> lines[r] == RowText(g[r])
  {
    if g == [] then [] else [RowText(g[0])] + RowTexts(g[1..])
  }

  /** Appending a row to the grid appends its line to the frame string. */
  lemma {:induction false} FrameTextSnoc(g: Grid, row: seq<Pixel>)
    ensures FrameText(g + [row]) == FrameText(g) + RowText(row) + "\n"
  {
    if g == [] {
      assert g + [row] == [row];
      assert [row][1..] == [];
    } else {
      assert (g + [row])[0] == g[0];
      assert (g + [row])[1..] == g[1..] + [row];
      FrameTextSnoc(g[1..], row);
    }
  }

  /** The loop `for row in gray: ascii_str += line + "\n"`. */
  method BuildFrame(gray: Grid) returns (asciiStr: string)
    ensures asciiStr == FrameText(gray)
  {
    asciiStr := "";
    var i := 0;
    while i < |gray|
      invariant 0 <= i <= |gray|
      invariant asciiStr == FrameText(gray[..i])
    {
      var line := RowText(gray[i]);
      FrameTextSnoc(gray[..i], gray[i]);
      assert gray[..i + 1] == gray[..i] + [gray[i]];
      asciiStr := asciiStr + line + "\n";
      i := i + 1;
    }
    assert gray[..i] == gray;
  }

  /** Every character of a frame is a ramp glyph or a newline. */
  lemma {:induction false} FrameAlphabet(g: Grid)
    ensures forall k :: 0 <= k < |FrameText(g)| ==>
      FrameText(g)[k] == '\n' || FrameText(g)[k] in EnhancedAscii
  {
    if g != [] {
      FrameAlphabet(g[1..]);
      var head := RowText(g[0]) + "\n";
      assert FrameText(g) == head + FrameText(g[1..]);
      forall k | 0 <= k < |FrameText(g)|
        ensures FrameText(g)[k] == '\n' || FrameText(g)[k] in EnhancedAscii
      {
        if k < |RowText(g[0])| {
          assert FrameText(g)[k] == Glyph(g[0][k]);
        } else if k >= |head| {
          assert FrameText(g)[k] == FrameText(g[1..])[k - |head|];
        }
      }
    }
  }

  /** A frame of `height` rows of `width` pixels is height * (width + 1) characters long. */
  lemma {:induction false} FrameLength(g: Grid, height: nat, width: nat)
    requires IsGrid(g, height, width)
    ensures |FrameText(g)| == height * (width + 1)
  {
    if g != [] {
      FrameLength(g[1..], height - 1, width);
      assert |FrameText(g)| == width + 1 + (height - 1) * (width + 1);
    }
  }

  /** Index of the first newline of s, or |s| when there is none. */
  function LineEnd(s: string): (k: nat)
    ensures k <= |s|
    ensures forall j :: 0 <= j < k ==> s[j] != '\n'
    ensures k < |s| ==> s[k] == '\n'
  {
    if s == [] || s[0] == '\n' then 0 else 1 + LineEnd(s[1..])
  }

  /**
   * `s.splitlines()` for strings whose only line boundary is the newline:
   * the text between newlines, with no empty line after a final newline.
   */
  function SplitLines(s: string): seq<string>
    decreases |s|
  {
    if s == [] then []
    else
      var k := LineEnd(s);
      [s[..k]] + (if k < |s| then SplitLines(s[k + 1..]) else [])
  }

  /** A line without newlines, then a newline, splits off as the first line. */
  lemma SplitFirstLine(line: string, rest: string)
    requires forall j :: 0 <= j < |line| ==> line[j] != '\n'
    ensures SplitLines(line + "\n" + rest) == [line] + SplitLines(rest)
  {
    var s := line + "\n" + rest;
    var k := LineEnd(s);
    assert s[|line|] == '\n';
    assert k == |line|;
    assert s[..k] == line;
    assert s[k + 1..] == rest;
  }

  /** Splitting a frame string gives back the row texts, in row order. */
  lemma {:induction false} SplitFrame(g: Grid)
    ensures SplitLines(FrameText(g)) == RowTexts(g)
  {
    if g != [] {
      var line := RowText(g[0]);
      forall j | 0 <= j < |line| ensures line[j] != '\n' {
        assert line[j] == Glyph(g[0][j]);
        RampHasNoLineBoundary();
      }
      SplitFirstLine(line, FrameText(g[1..]));
      SplitFrame(g[1..]);
    }
  }

  /** The result of `_convert_to_ascii` for one still on viewport vp. */
  function FrameOf(vp: Size, s: Still): Option<string>
    requires AtLeastMinimum(vp)
  {
    match s
    case Unreadable => None
    case Readable(sample) => Some(FrameText(sample(GridHeight(vp), GridWidth(vp))))
  }

  /**
   * `_convert_to_ascii`: size the grid from the viewport, take the resized
   * grayscale image and map it, or give None when the still could not be read.
   */
  method ConvertToAscii(vp: Size, s: Still) returns (frame: Option<string>)
    requires AtLeastMinimum(vp)
    ensures frame == FrameOf(vp, s)
  {
    match s {
      case Unreadable =>
        frame := None;
      case Readable(sample) =>
        var height := GridHeight(vp);
        var width := GridWidth(vp);
        var gray := sample(height, width);
        var text := BuildFrame(gray);
        frame := Some(text);
    }
  }

  /**
   * A readable still becomes a frame of exactly GridHeight(vp) lines of
   * GridWidth(vp) glyphs each, line r being row r of the resized image.
   */
  lemma FrameShape(vp: Size, s: Still)
    requires AtLeastMinimum(vp) && ResizesExactly(s) && s.Readable?
    ensures var g := s.sample(GridHeight(vp), GridWidth(vp));
      && FrameOf(vp, s).Some?
      && |FrameOf(vp, s).value| == GridHeight(vp) * (GridWidth(vp) + 1)
      && SplitLines(FrameOf(vp, s).value) == RowTexts(g)
      && |RowTexts(g)| == GridHeight(vp)
      && forall r :: 0 <= r < GridHeight(vp) ==> |RowTexts(g)[r]| == GridWidth(vp)
  {
    var h, w := GridHeight(vp), GridWidth(vp);
    var g := s.sample(h, w);
    assert IsGrid(g, h, w);
    assert FrameOf(vp, s) == Some(FrameText(g));
    FrameLength(g, h, w);
    SplitFrame(g);
  }

  /**
   * A frame is dropped by the truthiness filter only when conversion failed:
   * on a viewport with rows to fill, a readable still never yields "".
   */
  lemma ReadableGivesNonEmpty(vp: Size, s: Still)
    requires ResizesExactly(s) && AtLeastMinimum(vp)
    ensures FrameOf(vp, s).Some? && FrameOf(vp, s).value != "" <==> s.Readable?
  {
    if s.Readable? {
      GridFitsViewport(vp);
      var g := s.sample(GridHeight(vp), GridWidth(vp));
      assert IsGrid(g, GridHeight(vp), GridWidth(vp));
      assert |FrameText(g)| > 0;
    }
  }
}
