# HD ASCII video player: a Dafny model

This project models the frame pipeline of `HDAsciiPlayer` in `app.py`. That
class turns a video into text-art frames and plays them in a curses terminal.
Four parts of it are modelled, each with proofs.

- **Glyph mapping** (`Glyphs`). A `uint8` gray value `p` becomes one of the 29
  characters of `ENHANCED_ASCII`:
  `ENHANCED_ASCII[min(int((p/255)*28), 28)]`. The densest glyph `'@'` comes
  first and a blank comes last.
- **Viewport and grid sizing** (`Viewport`). The terminal size keeps a margin
  of 2 rows and 4 columns and never drops below 24 × 80. A frame has
  `int(rows * 0.9)` rows of `min(ASCII_WIDTH, cols)` glyphs.
- **Frame text** (`Frames`). A frame is built with the `ascii_str += line + "\n"`
  loop. Playback splits it back into lines with `splitlines`.
- **Batch conversion** (`Batch`, `Player.HDAsciiPlayer.ConvertVideo`). Every
  extracted still is converted, in file order. The frames kept are the truthy
  results: not `None` and not empty.
- **Playback** (`Playback`, `Player.HDAsciiPlayer.Play`). The loop is modelled
  as the sequence of curses calls it issues: `clear`, `addstr(row, 0, text)`,
  `refresh`, `getch` and `time.sleep`. Two per-frame oracles drive it:
  - `key(idx)` is the value `getch` returns after frame `idx`;
  - `fault(idx) == Some(k)` means the `k`-th `addstr` call of that frame raises
    `curses.error`. That call is recorded in the trace. The rest of the frame
    is skipped, key poll and sleep included, by the `except ...: continue`.

OpenCV, ffmpeg and the file system are inputs to the model, not code in it:

- `Frames.Still` stands for one still-image file after decoding, enhancement
  and gray conversion. `Unreadable` means `imread`/`imdecode` gave `None` or a
  processing step raised. `Readable(sample)` holds the INTER_AREA resize:
  `sample(h, w)` is the gray image resized to `h` rows of `w` pixels.
- `ConvertVideo` takes three inputs: whether `input.mp4` exists, the exit
  status of ffmpeg, and the stills in sorted file-name order.
- `TerminalSize` takes what `shutil.get_terminal_size()` returned, or `None`
  when it raised.

Floating point is written as exact integer arithmetic:

- `int((p/255)*28)` is `p*28/255`. 28 and 255 are coprime, so the true
  quotient is an integer only at `p = 0` and `p = 255`. There the double
  computation is exact. Everywhere else the quotient is at least 1/255 away from
  an integer, so it truncates to the same value.
- `int(rows*0.9)` is `rows*9/10`. The double product lies within
  `rows*2^-52` of `9*rows/10`. Where `9*rows/10` is an integer, that integer
  is a double and the exact product with the double `0.9` (slightly above
  9/10) lies above it, so rounding never goes below it. Elsewhere the
  fractional part is at least 0.1, so `int` still gives the floor.

Details of the code that the model keeps:

- The glyph index is clamped only from above. A `uint8` pixel cannot be
  negative, so `Pixel` is the subset type 0..255. `GlyphIndex` proves that the
  index is exactly the floor of `p*28/255`, so the clamp never cuts in.
- The ramp has 29 glyphs. The comment next to it says 32.
- The filter drops empty strings as well as `None`. `ReadableGivesNonEmpty`
  shows that only unreadable stills are ever dropped.
- A render error skips the frame's key poll and sleep as well as the rest of
  its drawing.
- Rows and the status line are cut to `max_cols - 1` characters. The grid is
  `min(100, cols)` wide, so on a viewport of 100 columns or fewer every drawn
  line loses its last glyph. `WholeFrameDrawn` states this exactly.

## Model

| member | source | states |
|---|---|---|
| Glyphs.RampLength | app.py:11 | the ramp holds 29 glyphs, so N-1 = 28 |
| Glyphs.RampDistinct | app.py:11 | the 29 glyphs of the ramp are pairwise distinct |
| Glyphs.GlyphIndex | app.py:73 | the ramp index is below the ramp length and is exactly the floor of p*28/255, so the `min` clamp never changes it |
| Glyphs.Glyph | app.py:73 | the glyph chosen for any pixel is a character of `ENHANCED_ASCII` |
| Glyphs.GlyphMonotone | app.py:73 | a brighter pixel never gets a lower ramp index |
| Glyphs.GlyphEnds | app.py:73 | pixel 0 maps to index 0, `'@'`; pixel 255 maps to the last index, `' '` |
| Glyphs.LevelThreshold | app.py:73 | every ramp level i is reached: the returned pixel maps to i, and the pixel just below it maps lower |
| Glyphs.SameGlyphIffSameLevel | app.py:73 | two pixels get the same character if and only if they get the same ramp index |
| Glyphs.RampHasNoLineBoundary | app.py:11 | no ramp glyph is a line boundary for Python's `splitlines` |
| Viewport.TerminalSize | app.py:23-30 | the viewport is at least 24 × 80; on success it is max(rows-2, 24) by max(cols-4, 80), as the least value above both bounds; on failure it is exactly 24 × 80 |
| Viewport.GridHeight | app.py:66 | the grid height h is the floor of 9*rows/10: 10h <= 9 rows < 10(h+1) |
| Viewport.GridWidth | app.py:67 | the grid width is at most ASCII_WIDTH (100) and at most cols, and equals one of them |
| Viewport.GridFitsViewport | app.py:66-67 | on a viewport of at least 24 × 80, the grid has 21 to rows-2 rows and 80 to cols columns |
| Frames.RowText | app.py:73-74 | a row's text has one character per pixel, and character j is the glyph of pixel j |
| Frames.FrameTextSnoc | app.py:75 | appending a row appends that row's text and a newline to the frame |
| Frames.BuildFrame | app.py:71-76 | the `+=` loop over the rows yields exactly the frame text of the grid |
| Frames.FrameAlphabet | app.py:71-76 | every character of a frame is a ramp glyph or a newline |
| Frames.FrameLength | app.py:71-76 | a grid of height rows of width pixels gives a frame of height*(width+1) characters |
| Frames.LineEnd | app.py:134 | the first newline is at the returned index, and no newline comes before it |
| Frames.SplitFirstLine | app.py:134 | a line without newline, then a newline, is split off as the first line |
| Frames.SplitFrame | app.py:134 | splitting a frame's text gives back the row texts, one per row, in row order |
| Frames.ConvertToAscii | app.py:50-79 | on a viewport of at least 24 × 80, an unreadable still gives None; a readable one gives the frame text of its resize to GridHeight × GridWidth |
| Frames.FrameShape | app.py:66-76 | a readable still's frame is GridHeight*(GridWidth+1) characters long and splits into GridHeight lines, each of GridWidth glyphs, line r being row r |
| Frames.ReadableGivesNonEmpty | app.py:66-76 | on a valid viewport, a conversion gives a non-empty frame if and only if the still was readable |
| Decimal.DecimalString | app.py:139 | the formatted number is a non-empty digit string with no leading zero |
| Decimal.ParseDecimalString | app.py:139 | reading the formatted digits back gives the number |
| Batch.KeepTruthy | app.py:106 | the kept frames are non-empty and no more than the results |
| Batch.KeepTruthyAppend | app.py:106 | filtering distributes over concatenation, so the kept frames stay in their original order |
| Batch.KeepTruthyMember | app.py:106 | a string is kept if and only if some result carries it and it is not empty |
| Batch.KeepTruthyEmpty | app.py:106-107 | nothing is kept, so `convert_video` returns False, if and only if every result is None or empty |
| Batch.KeepTruthyAll | app.py:106 | when every conversion succeeds, the kept frames are all the results, in order |
| Batch.ConvertAll | app.py:101-104 | there is one result per still, and result i is the conversion of still i |
| Batch.ConvertBatch | app.py:100-104 | the map over the stills yields the results in input order |
| Batch.NothingToPlayIffAllUnreadable | app.py:101-107 | on a valid viewport, nothing survives if and only if every still is unreadable |
| Playback.StatusNamesFrame | app.py:139 | the status line names the 1-based frame index idx+1 and the frame total: parsing it returns exactly those two numbers |
| Playback.StatusLength | app.py:139 | the status line is 24 characters plus the digits of idx+1 and of the total |
| Playback.StatusDrawnWhole | app.py:139-140 | on a viewport of at least 24 × 80 the status draw carries the whole status line, both numbers included, while they have at most 55 digits together |
| Playback.DrawPlan | app.py:134-140 | a frame gets min(len(lines), max_rows-1) content draws, plus one status draw; draw k is at row k, column 0, inside the viewport, and at most max_cols-1 characters long; content draw k is line k cut to max_cols-1 characters; the status draw is on row min(max_rows-1, len(lines)), which no content draw uses, and carries the status cut to max_cols-1 |
| Playback.DrawLines | app.py:135-136 | the row loop issues the content draws in order, and stops right after the one that raises; it reports whether one raised |
| Playback.PlayFrame | app.py:131-149 | one pass of the loop body issues exactly that frame's calls, and breaks exactly when the frame drew without error and `getch` returned 'q' |
| Playback.FrameTraceClears | app.py:131 | each frame's calls start with its only `clear` |
| Playback.RunClears | app.py:130-131 | playing frames lo..hi in full clears the screen hi-lo times |
| Playback.StopsAtQuit | app.py:144-145 | when the first 'q' is read after frame x, playback is frames lo..x in order, and nothing after them |
| Playback.RunsToEnd | app.py:130 | with no 'q', every remaining frame is played, once and in order |
| Playback.FramesPlayed | app.py:130-149 | with the first 'q' after frame x (or none), playback is exactly the first min(len, x) frames in order, with that many clears |
| Playback.GlitchSkipsPoll | app.py:148-149 | a frame whose drawing raises issues no refresh, getch or sleep, cannot end playback, and is followed by the next frame |
| Playback.KeyReadOnlyAfterDraw | app.py:144-149 | playback depends on the key oracle only at frames that drew without error |
| Playback.GridLinesDrawn | app.py:135-136 | for GridHeight lines of GridWidth glyphs, all are drawn and the status goes on the row below; each line is drawn whole when cols > 100, and without its last glyph otherwise |
| Playback.WholeFrameDrawn | app.py:66-76 | a frame converted on the same viewport has GridHeight lines of GridWidth glyphs, all drawn, whole when cols > 100 and without the last glyph otherwise |
| Player.HDAsciiPlayer.constructor | app.py:18-20 | the player starts with the clamped terminal size and no frames |
| Player.HDAsciiPlayer.ConvertVideo | app.py:81-107 | a missing input or a non-zero ffmpeg exit returns False and leaves the frames unchanged; otherwise the frames become the truthy conversions in still order, and the result is whether any survived; the viewport does not change |
| Player.HDAsciiPlayer.Play | app.py:109-149 | the calls issued are exactly the specified playback trace of the stored frames on the stored viewport |

## Left out

- OpenCV image work is an input (`Still`), not a model: `imread`, `imdecode`,
  the LAB/CLAHE contrast step, the `filter2D` sharpening, the BGR-to-gray step
  and the INTER_AREA resize (app.py:37-48, 54-63, 68). These are foreign
  library calls.
- The ffmpeg command is left out (app.py:88-96). Only its exit status is an
  input, and so is the existence check on `input.mp4`.
- File-system plumbing is left out: directory creation, `os.listdir` with the
  filter and sort of file names, and `rmtree` cleanup (app.py:32-35, 99,
  153-155). The stills arrive already in sorted order.
- `ThreadPoolExecutor` concurrency is left out (app.py:100-104). Only its
  order-preserving map result matters, so the model uses a sequential loop.
- Terminal I/O and timing are left out: curses setup and `endwin` teardown,
  colour setup, the duration of `time.sleep` and real key polling
  (app.py:116-126, 147, 151). Sleep and key reads are trace entries and an
  oracle.
- The early return of `play` on an empty frame list, with its message
  (app.py:111-113), is modelled as an empty trace.
- Left out as I/O: the `shutil.get_terminal_size` call itself, every `print`,
  and the `__main__` block with its `KeyboardInterrupt` handling
  (app.py:157-174).
- Frames.SplitLines: splits at `"\n"` only, while Python's `splitlines` also
  breaks at other line-boundary characters. A frame contains only ramp glyphs
  and newlines (`FrameAlphabet`), and no ramp glyph is a line boundary
  (`RampHasNoLineBoundary`), so on frames the two agree.
- Playback.FrameTrace: only `addstr` calls can raise in the model. `clear`,
  `refresh` and `getch` are taken never to raise `curses.error`.
- Frames.FrameOf: requires a viewport of at least 24 × 80, which every
  player holds (`TerminalSize`). On a smaller viewport the source would ask
  `cv2.resize` for a zero height, which raises and gives None; that path is
  not modelled.
