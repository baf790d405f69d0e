/**
 * Viewport and character-grid arithmetic (app.py, `_get_terminal_size` and the
 * sizing step of `_convert_to_ascii`).
 */
module Viewport {
  import opened Options

  /** `ASCII_WIDTH`: the widest text-art frame, in characters. */
  const AsciiWidth: nat := 100

  /** The usable terminal area, `term_size = (rows, cols)`. */
  datatype Size = Size(rows: nat, cols: nat)

  /** The floor every viewport respects: 24 rows by 80 columns. */
  predicate AtLeastMinimum(vp: Size) {
    vp.rows >= 24 && vp.cols >= 80
  }

  /**
   * `query` is what `shutil.get_terminal_size()` returned as (columns, lines),
   * or None when the call raised. A margin of 2 rows and 4 columns is kept,
   * and the result never goes below 24 by 80; the fallback is exactly 24 by 80.
   */
  function TerminalSize(query: Option<(int, int)>): (vp: Size)
    ensures AtLeastMinimum(vp)
    ensures query.None? ==> vp == Size(24, 80)
    ensures query.Some? ==>
      var (cols, rows) := query.value;
      && vp.rows >= rows - 2 && (vp.rows == rows - 2 || vp.rows == 24)
      && vp.cols >= cols - 4 && (vp.cols == cols - 4 || vp.cols == 80)
  {
    match query
    case None => Size(24, 80)
    case Some((cols, rows)) =>
      Size(if rows - 2 >= 24 then rows - 2 else 24, if cols - 4 >= 80 then cols - 4 else 80)
  }

  /**
   * `int(rows * 0.9)`, the number of text rows of a frame, which is the floor
   * of 9 * rows / 10. The double product lies within rows * 2^-52 of
   * 9 * rows / 10. Where that value is an integer, the integer is a double
   * and the exact product of rows and the double 0.9 lies above it, so
   * rounding never goes below it; elsewhere the fractional part is at least
   * 0.1, so truncation still gives the floor.
   */
  function GridHeight(vp: Size): (h: nat)
    ensures 10 * h <= 9 * vp.rows < 10 * (h + 1)
  {
    vp.rows * 9 / 10
  }

  /** `min(ASCII_WIDTH, cols)`, the number of glyphs in every text row. */
  function GridWidth(vp: Size): (w: nat)
    ensures w <= AsciiWidth && w <= vp.cols
    ensures w == AsciiWidth || w == vp.cols
  {
    if AsciiWidth <= vp.cols then AsciiWidth else vp.cols
  }

  /**
   * On a viewport of at least 24 by 80 the grid has at least 21 rows and at
   * least two rows fewer than the viewport, so the whole frame and the status
   * line below it fit; it is at least 80 glyphs wide.
   */
  lemma GridFitsViewport(vp: Size)
    requires AtLeastMinimum(vp)
    ensures 21 <= GridHeight(vp) <= vp.rows - 2
    ensures 80 <= GridWidth(vp) <= vp.cols
  {
  }
}
