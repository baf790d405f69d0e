/**
 * The luminance-to-glyph mapping of the player (app.py, `ENHANCED_ASCII` and
 * the comprehension inside `_convert_to_ascii`).
 */
module Glyphs {

  /** The shading ramp, densest glyph first and a blank last. */
  const EnhancedAscii: string := "@%#W$9876543210?!abc;:+=-,._ "

  /** One sample of the resized grayscale image, a numpy `uint8`. */
  type Pixel = p: int | 0 <= p < 256

  function Min(a: int, b: int): int { if a <= b then a else b }

  /** The ramp has 29 glyphs, so the largest index is 28. */
  lemma RampLength()
    ensures |EnhancedAscii| == 29
  {
  }

  /**
   * `min(int((p / 255) * (N - 1)), N - 1)` with N the ramp length. The
   * floating-point quotient is written as an integer division: 28 and 255 are
   * coprime, so p * 28 / 255 is an integer only for p = 0 and p = 255, where the
   * double computation is exact, and lies at least 1/255 away from one otherwise.
   * The result is exactly the floor of p * 28 / 255: the clamp never cuts in.
   */
  function GlyphIndex(p: Pixel): (i: nat)
    ensures i < |EnhancedAscii|
    ensures i * 255 <= p * 28 < (i + 1) * 255
  {
    var top := |EnhancedAscii| - 1;
    Min(p * top / 255, top)
  }

  /** The glyph drawn for pixel value p. */
  function Glyph(p: Pixel): (c: char)
    ensures c in EnhancedAscii
  {
    EnhancedAscii[GlyphIndex(p)]
  }

  /** A brighter pixel never gets a denser glyph: the index is non-decreasing. */
  lemma GlyphMonotone(p: Pixel, q: Pixel)
    requires p <= q
    ensures GlyphIndex(p) <= GlyphIndex(q)
  {
  }

  /** Black maps to the first glyph of the ramp and white to the last. */
  lemma GlyphEnds()
    ensures GlyphIndex(0) == 0 && Glyph(0) == '@'
    ensures GlyphIndex(255) == |EnhancedAscii| - 1 && Glyph(255) == ' '
  {
  }

  /**
   * Every glyph of the ramp is drawn for some pixel: the darkest pixel of
   * level i is the ceiling of i * 255 / 28.
   */
  function LevelThreshold(i: nat): (p: Pixel)
    requires i < |EnhancedAscii|
    ensures GlyphIndex(p) == i
    ensures p == 0 || GlyphIndex(p - 1) < i
  {
    (i * 255 + 27) / 28
  }

  /** The characters Python's `str.splitlines` treats as line boundaries. */
  predicate IsLineBoundary(c: char) {
    c == '\n' || c == '\r' || c == '\U{B}' || c == '\U{C}' || c == '\U{1C}'
    || c == '\U{1D}' || c == '\U{1E}' || c == '\U{85}' || c == '\U{2028}' || c == '\U{2029}'
  }

  /** No glyph of the ramp ends a line. */
  lemma RampHasNoLineBoundary()
    ensures forall k :: 0 <= k < |EnhancedAscii| ==> !IsLineBoundary(EnhancedAscii[k])
  {
  }

  /** The 29 glyphs are pairwise distinct, so different levels look different. */
  lemma RampDistinct()
    ensures forall a, b :: 0 <= a < b < |EnhancedAscii| ==> EnhancedAscii[a] != EnhancedAscii[b]
  {
  }

  /** Two pixels get the same glyph exactly when they fall into the same level. */
  lemma SameGlyphIffSameLevel(p: Pixel, q: Pixel)
    ensures Glyph(p) == Glyph(q) <==> GlyphIndex(p) == GlyphIndex(q)
  {
    RampDistinct();
    var i, j := GlyphIndex(p), GlyphIndex(q);
    if i < j {
      assert EnhancedAscii[i] != EnhancedAscii[j];
    } else if j < i {
      assert EnhancedAscii[j] != EnhancedAscii[i];
    }
  }
}
