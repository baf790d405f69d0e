/**
 * The playback loop (app.py, `play`) as the sequence of curses calls it makes.
 * The keyboard and the failing draw calls are oracles indexed by frame.
 */
module Playback {
  import opened Options
  import opened Glyphs
  import opened Viewport
  import opened Frames
  import opened Decimal

  /** `FPS`, the constant frame rate shown in the status line. */
  const Fps: nat := 12

  /** `ord('q')`, the key that ends playback. */
  const QuitKey: int := 113

  /** The curses calls of one playback, in the order they are issued. */
  datatype Command =
    | Clear                                   // stdscr.clear()
    | AddStr(row: nat, col: nat, text: string) // stdscr.addstr(row, col, text)
    | Refresh                                 // stdscr.refresh()
    | GetCh                                   // stdscr.getch()
    | Sleep                                   // time.sleep(1 / FPS)

  /** Python's `s[:n]` for n >= 0: at most the first n characters. */
  function Prefix(s: string, n: nat): (t: string)
    ensures |t| == Min(|s|, n) && t == s[..|t|]
  {
    if n < |s| then s[..n] else s
  }

  /** The status line for 0-based frame idx out of total frames. */
  function Status(idx: nat, total: nat): string {
    "HD-ASCII " + DecimalString(idx + 1) + "/" + DecimalString(total)
      + " | " + DecimalString(Fps) + "FPS | Q退出"
  }

  /** Reads the 1-based frame number and the frame count back out of a status line. */
  function ParseStatus(s: string): Option<(nat, nat)> {
    var head := "HD-ASCII ";
    if |s| < |head| || s[..|head|] != head then None
    else
      var rest := s[|head|..];
      var a := DigitRun(rest);
      if a == 0 || a == |rest| || rest[a] != '/' then None
      else
        var tail := rest[a + 1..];
        var b := DigitRun(tail);
        if b == 0 then None
        else Some((ParseDecimal(rest[..a]), ParseDecimal(tail[..b])))
  }

  /** A status shape with digit strings d1 and d2 parses to their values. */
  lemma ParseStatusShape(d1: string, d2: string, tail: string)
    requires |d1| > 0 && forall k :: 0 <= k < |d1| ==> IsDigit(d1[k])
    requires |d2| > 0 && forall k :: 0 <= k < |d2| ==> IsDigit(d2[k])
    requires tail != [] && !IsDigit(tail[0])
    ensures ParseStatus("HD-ASCII " + d1 + "/" + d2 + tail) == Some((ParseDecimal(d1), ParseDecimal(d2)))
  {
    var head := "HD-ASCII ";
    var s := head + d1 + "/" + d2 + tail;
    assert s == head + (d1 + ("/" + (d2 + tail)));
    assert s[..|head|] == head;
    var rest := s[|head|..];
    assert rest == d1 + ("/" + (d2 + tail));
    DigitRunStops(d1, "/" + (d2 + tail));
    assert rest[..|d1|] == d1;
    assert rest[|d1|] == '/';
    assert rest[|d1| + 1..] == d2 + tail;
    DigitRunStops(d2, tail);
    assert (d2 + tail)[..|d2|] == d2;
  }

  /** The status line carries the 1-based index idx + 1 and the total. */
  lemma StatusNamesFrame(idx: nat, total: nat)
    ensures ParseStatus(Status(idx, total)) == Some((idx + 1, total))
  {
    var d1, d2 := DecimalString(idx + 1), DecimalString(total);
    var tail := " | " + DecimalString(Fps) + "FPS | Q退出";
    assert tail[0] == ' ';
    assert Status(idx, total) == "HD-ASCII " + d1 + "/" + d2 + tail;
    ParseDecimalString(idx + 1);
    ParseDecimalString(total);
    ParseStatusShape(d1, d2, tail);
  }

  /** The status line is 24 characters plus the digits of the two numbers. */
  lemma StatusLength(idx: nat, total: nat)
    ensures |Status(idx, total)| == 24 + |DecimalString(idx + 1)| + |DecimalString(total)|
  {
    assert DecimalString(Fps) == "12";
  }

  /** `range(min(len(lines), max_rows - 1))`: how many frame lines are drawn. */
  function ContentRows(lines: seq<string>, vp: Size): nat
    requires AtLeastMinimum(vp)
  {
    Min(|lines|, vp.rows - 1)
  }

  /**
   * The `addstr` calls for frame idx of total: each drawn line at its own row,
   * cut to `max_cols - 1` characters, then the status line on the row below.
   */
  function DrawCalls(lines: seq<string>, vp: Size, idx: nat, total: nat): seq<Command>
    requires AtLeastMinimum(vp)
  {
    var n := ContentRows(lines, vp);
    seq(n, i requires 0 <= i < n => AddStr(i, 0, Prefix(lines[i], vp.cols - 1)))
      + [AddStr(n, 0, Prefix(Status(idx, total), vp.cols - 1))]
  }

  /**
   * The draw calls stay inside the viewport: call k writes row k from column 0
   * and at most `max_cols - 1` characters; the first ContentRows calls draw the
   * frame's lines in order, and the last one draws the status line on row
   * `min(max_rows - 1, len(lines))`, which no content call uses.
   */
  lemma DrawPlan(lines: seq<string>, vp: Size, idx: nat, total: nat)
    requires AtLeastMinimum(vp)
    ensures var d := DrawCalls(lines, vp, idx, total);
      var n := ContentRows(lines, vp);
      && n == Min(|lines|, vp.rows - 1)
      && |d| == n + 1
      && (forall k :: 0 <= k < |d| ==>
            d[k].AddStr? && d[k].row == k && d[k].col == 0
            && d[k].row < vp.rows && |d[k].text| <= vp.cols - 1)
      && (forall k :: 0 <= k < n ==>
            d[k].text == lines[k][..Min(|lines[k]|, vp.cols - 1)])
      && d[n].row == Min(vp.rows - 1, |lines|)
      && d[n].text == Status(idx, total)[..Min(|Status(idx, total)|, vp.cols - 1)]
  {
  }

  /**
   * On a viewport of at least 24 by 80, the status line is drawn whole,
   * both numbers included, while they have at most 55 digits together.
   */
  lemma StatusDrawnWhole(lines: seq<string>, vp: Size, idx: nat, total: nat)
    requires AtLeastMinimum(vp)
    requires |DecimalString(idx + 1)| + |DecimalString(total)| <= 55
    ensures DrawCalls(lines, vp, idx, total)[ContentRows(lines, vp)].text == Status(idx, total)
  {
    StatusLength(idx, total);
    DrawPlan(lines, vp, idx, total);
  }

  /** Whether one of frame idx's draw calls raises `curses.error`. */
  predicate Glitches(frames: seq<string>, vp: Size, fault: nat -> Option<nat>, idx: nat)
    requires AtLeastMinimum(vp) && idx < |frames|
  {
    fault(idx).Some?
    && fault(idx).value < |DrawCalls(SplitLines(frames[idx]), vp, idx, |frames|)|
  }

  /** Whether the loop breaks after frame idx: it was drawn and 'q' was read. */
  predicate Quits(frames: seq<string>, vp: Size, key: nat -> int, fault: nat -> Option<nat>, idx: nat)
    requires AtLeastMinimum(vp) && idx < |frames|
  {
    !Glitches(frames, vp, fault, idx) && key(idx) == QuitKey
  }

  /**
   * The calls for frame idx. `fault(idx) == Some(k)` means that the k-th
   * `addstr` call of the frame raises: that call is issued, and the
   * `except curses.error: continue` skips the rest of the frame. Otherwise the
   * frame is refreshed, a key is read, and unless it is 'q' the loop sleeps.
   */
  function FrameTrace(frames: seq<string>, vp: Size, key: nat -> int, fault: nat -> Option<nat>, idx: nat): seq<Command>
    requires AtLeastMinimum(vp) && idx < |frames|
  {
    var draws := DrawCalls(SplitLines(frames[idx]), vp, idx, |frames|);
    if Glitches(frames, vp, fault, idx) then [Clear] + draws[..fault(idx).value + 1]
    else [Clear] + draws + [Refresh, GetCh] + (if key(idx) == QuitKey then [] else [Sleep])
  }

  /**
   * The inner loop `for i in range(min(len(lines), max_rows - 1))` of frame
   * idx: the content draw calls issued, and whether one of them raised.
   */
  method DrawLines(lines: seq<string>, vp: Size, idx: nat, total: nat, fault: nat -> Option<nat>)
    returns (calls: seq<Command>, raised: bool)
    requires AtLeastMinimum(vp)
    ensures var n := ContentRows(lines, vp);
      var draws := DrawCalls(lines, vp, idx, total);
      && (raised <==> fault(idx).Some? && fault(idx).value < n)
      && calls == draws[..if raised then fault(idx).value + 1 else n]
  {
    ghost var draws := DrawCalls(lines, vp, idx, total);
    var n := Min(|lines|, vp.rows - 1);
    calls := [];
    raised := false;
    var i := 0;
    while i < n && !raised
      invariant 0 <= i <= n
      invariant raised ==> fault(idx) == Some(i) && i < n
      invariant !raised ==> forall j :: 0 <= j < i ==> fault(idx) != Some(j)
      invariant calls == draws[..if raised then i + 1 else i]
      decreases n - i, if raised then 0 else 1
    {
      calls := calls + [AddStr(i, 0, Prefix(lines[i], vp.cols - 1))];
      assert draws[..i + 1] == draws[..i] + [draws[i]];
      if fault(idx) == Some(i) {
        raised := true;
      } else {
        i := i + 1;
      }
    }
  }

  /**
   * One pass of the body of `for idx, frame in enumerate(ascii_frames)`:
   * the calls it issues and whether it ends with `break`. An error returns
   * early, as the `except curses.error: continue` does.
   */
  method PlayFrame(frames: seq<string>, vp: Size, key: nat -> int, fault: nat -> Option<nat>, idx: nat)
    returns (calls: seq<Command>, quit: bool)
    requires AtLeastMinimum(vp) && idx < |frames|
    ensures calls == FrameTrace(frames, vp, key, fault, idx)
    ensures quit == Quits(frames, vp, key, fault, idx)
  {
    var lines := SplitLines(frames[idx]);
    ghost var draws := DrawCalls(lines, vp, idx, |frames|);
    var content, raised := DrawLines(lines, vp, idx, |frames|, fault);
    calls := [Clear] + content;
    quit := false;
    if raised {
      return;
    }
    var n := Min(|lines|, vp.rows - 1);
    var status := Status(idx, |frames|);
    calls := calls + [AddStr(Min(vp.rows - 1, |lines|), 0, Prefix(status, vp.cols - 1))];
    assert draws == draws[..n] + [draws[n]];
    if fault(idx) == Some(n) {
      assert calls == [Clear] + draws[..n + 1];
      return;
    }
    calls := calls + [Refresh, GetCh];
    if key(idx) == QuitKey {
      quit := true;
      return;
    }
    calls := calls + [Sleep];
  }

  /** The calls of the loop from frame idx on. */
  function PlayFrom(frames: seq<string>, vp: Size, key: nat -> int, fault: nat -> Option<nat>, idx: nat): seq<Command>
    requires AtLeastMinimum(vp)
    decreases |frames| - idx
  {
    if idx >= |frames| then
      []
    else
      var rest := if Quits(frames, vp, key, fault, idx) then [] else PlayFrom(frames, vp, key, fault, idx + 1);
      FrameTrace(frames, vp, key, fault, idx) + rest
  }

  /** One step of the loop: frame idx's calls, then the rest unless it quit. */
  lemma PlayFromStep(frames: seq<string>, vp: Size, key: nat -> int, fault: nat -> Option<nat>, idx: nat)
    requires AtLeastMinimum(vp) && idx < |frames|
    ensures PlayFrom(frames, vp, key, fault, idx)
         == FrameTrace(frames, vp, key, fault, idx)
            + (if Quits(frames, vp, key, fault, idx) then [] else PlayFrom(frames, vp, key, fault, idx + 1))
  {
  }

  /** The calls of a whole playback. */
  function PlayTrace(frames: seq<string>, vp: Size, key: nat -> int, fault: nat -> Option<nat>): seq<Command>
    requires AtLeastMinimum(vp)
  {
    PlayFrom(frames, vp, key, fault, 0)
  }

  /** Frames lo up to (not including) hi, each played in full, in list order. */
  function Run(frames: seq<string>, vp: Size, key: nat -> int, fault: nat -> Option<nat>, lo: nat, hi: nat): seq<Command>
    requires AtLeastMinimum(vp) && hi <= |frames|
    decreases hi - lo
  {
    if lo >= hi then [] else FrameTrace(frames, vp, key, fault, lo) + Run(frames, vp, key, fault, lo + 1, hi)
  }

  /** Each frame's calls begin with its one `clear`. */
  lemma FrameTraceClears(frames: seq<string>, vp: Size, key: nat -> int, fault: nat -> Option<nat>, idx: nat)
    requires AtLeastMinimum(vp) && idx < |frames|
    ensures var t := FrameTrace(frames, vp, key, fault, idx);
      t[0] == Clear && multiset(t)[Clear] == 1
  {
    var t := FrameTrace(frames, vp, key, fault, idx);
    var draws := DrawCalls(SplitLines(frames[idx]), vp, idx, |frames|);
    DrawPlan(SplitLines(frames[idx]), vp, idx, |frames|);
    assert Clear !in draws;
    assert Clear !in t[1..] by {
      if Glitches(frames, vp, fault, idx) {
        assert t[1..] == draws[..fault(idx).value + 1];
      } else {
        assert t[1..] == draws + [Refresh, GetCh] + (if key(idx) == QuitKey then [] else [Sleep]);
      }
    }
    assert t == [Clear] + t[1..];
  }

  /** Playing frames lo..hi in full clears the screen once per frame. */
  lemma {:induction false} RunClears(frames: seq<string>, vp: Size, key: nat -> int, fault: nat -> Option<nat>, lo: nat, hi: nat)
    requires AtLeastMinimum(vp) && lo <= hi <= |frames|
    ensures multiset(Run(frames, vp, key, fault, lo, hi))[Clear] == hi - lo
    decreases hi - lo
  {
    if lo < hi {
      FrameTraceClears(frames, vp, key, fault, lo);
      RunClears(frames, vp, key, fault, lo + 1, hi);
    }
  }

  /** First 'q' after frame x (1-based): frames 1..x are played, none after. */
  lemma {:induction false} StopsAtQuit(frames: seq<string>, vp: Size, key: nat -> int, fault: nat -> Option<nat>, lo: nat, x: nat)
    requires AtLeastMinimum(vp) && lo < x <= |frames|
    requires Quits(frames, vp, key, fault, x - 1)
    requires forall i :: lo <= i < x - 1 ==> !Quits(frames, vp, key, fault, i)
    ensures PlayFrom(frames, vp, key, fault, lo) == Run(frames, vp, key, fault, lo, x)
    decreases x - lo
  {
    if lo < x - 1 {
      StopsAtQuit(frames, vp, key, fault, lo + 1, x);
    }
  }

  /** Without 'q', every frame from lo to the end is played, in order. */
  lemma {:induction false} RunsToEnd(frames: seq<string>, vp: Size, key: nat -> int, fault: nat -> Option<nat>, lo: nat)
    requires AtLeastMinimum(vp) && lo <= |frames|
    requires forall i :: lo <= i < |frames| ==> !Quits(frames, vp, key, fault, i)
    ensures PlayFrom(frames, vp, key, fault, lo) == Run(frames, vp, key, fault, lo, |frames|)
    decreases |frames| - lo
  {
    if lo < |frames| {
      RunsToEnd(frames, vp, key, fault, lo + 1);
    }
  }

  /**
   * With the first 'q' read after frame x (1-based), or no 'q' at all when
   * x > |frames|, exactly min(|frames|, x) frames are cleared and drawn: the
   * first ones, in list order.
   */
  lemma FramesPlayed(frames: seq<string>, vp: Size, key: nat -> int, fault: nat -> Option<nat>, x: nat)
    requires AtLeastMinimum(vp) && x >= 1
    requires x <= |frames| ==> Quits(frames, vp, key, fault, x - 1)
    requires forall i :: 0 <= i < x - 1 && i < |frames| ==> !Quits(frames, vp, key, fault, i)
    ensures var played := Min(|frames|, x);
      && PlayTrace(frames, vp, key, fault) == Run(frames, vp, key, fault, 0, played)
      && multiset(PlayTrace(frames, vp, key, fault))[Clear] == played
  {
    if x <= |frames| {
      StopsAtQuit(frames, vp, key, fault, 0, x);
    } else {
      RunsToEnd(frames, vp, key, fault, 0);
    }
    RunClears(frames, vp, key, fault, 0, Min(|frames|, x));
  }

  /**
   * A frame whose drawing raises issues no refresh, key read or sleep, cannot
   * end playback, and the loop goes on with the next frame.
   */
  lemma GlitchSkipsPoll(frames: seq<string>, vp: Size, key: nat -> int, fault: nat -> Option<nat>, idx: nat)
    requires AtLeastMinimum(vp) && idx < |frames|
    requires Glitches(frames, vp, fault, idx)
    ensures var t := FrameTrace(frames, vp, key, fault, idx);
      GetCh !in t && Refresh !in t && Sleep !in t
    ensures !Quits(frames, vp, key, fault, idx)
    ensures PlayFrom(frames, vp, key, fault, idx)
         == FrameTrace(frames, vp, key, fault, idx) + PlayFrom(frames, vp, key, fault, idx + 1)
  {
    var draws := DrawCalls(SplitLines(frames[idx]), vp, idx, |frames|);
    DrawPlan(SplitLines(frames[idx]), vp, idx, |frames|);
    var t := FrameTrace(frames, vp, key, fault, idx);
    assert t == [Clear] + draws[..fault(idx).value + 1];
    assert forall c :: c in t ==> c == Clear || c.AddStr?;
  }

  /** The key oracle is consulted only for frames that drew without error. */
  lemma {:induction false} KeyReadOnlyAfterDraw(frames: seq<string>, vp: Size, key1: nat -> int, key2: nat -> int, fault: nat -> Option<nat>, lo: nat)
    requires AtLeastMinimum(vp)
    requires forall i :: lo <= i < |frames| && !Glitches(frames, vp, fault, i) ==> key1(i) == key2(i)
    ensures PlayFrom(frames, vp, key1, fault, lo) == PlayFrom(frames, vp, key2, fault, lo)
    decreases |frames| - lo
  {
    if lo < |frames| {
      KeyReadOnlyAfterDraw(frames, vp, key1, key2, fault, lo + 1);
      assert FrameTrace(frames, vp, key1, fault, lo) == FrameTrace(frames, vp, key2, fault, lo);
    }
  }

  /**
   * Lines of GridWidth(vp) glyphs, GridHeight(vp) of them: all are drawn, each
   * whole when the viewport is wider than ASCII_WIDTH and without its last
   * glyph otherwise.
   */
  lemma GridLinesDrawn(lines: seq<string>, vp: Size, idx: nat, total: nat)
    requires AtLeastMinimum(vp)
    requires |lines| == GridHeight(vp)
    requires forall k :: 0 <= k < |lines| ==> |lines[k]| == GridWidth(vp)
    ensures var d := DrawCalls(lines, vp, idx, total);
      && ContentRows(lines, vp) == |lines|
      && d[|lines|].row == |lines|
      && forall k :: 0 <= k < |lines| ==>
           d[k].text == (if vp.cols > AsciiWidth then lines[k] else lines[k][..GridWidth(vp) - 1])
  {
    GridFitsViewport(vp);
    var w := GridWidth(vp);
    DrawPlan(lines, vp, idx, total);
    var d := DrawCalls(lines, vp, idx, total);
    forall k | 0 <= k < |lines|
      ensures d[k].text == (if vp.cols > AsciiWidth then lines[k] else lines[k][..w - 1])
    {
      assert d[k].text == lines[k][..Min(w, vp.cols - 1)];
    }
  }

  /**
   * For a frame built from a still on the same viewport, every line is drawn
   * and the status line sits right below them; each line is shown whole when
   * the viewport is wider than ASCII_WIDTH and loses its last glyph otherwise.
   */
  lemma WholeFrameDrawn(vp: Size, s: Still, idx: nat, total: nat)
    requires AtLeastMinimum(vp) && ResizesExactly(s) && s.Readable?
    ensures var lines := SplitLines(FrameOf(vp, s).value);
      var d := DrawCalls(lines, vp, idx, total);
      && |lines| == GridHeight(vp)
      && (forall k :: 0 <= k < |lines| ==> |lines[k]| == GridWidth(vp))
      && ContentRows(lines, vp) == |lines|
      && d[|lines|].row == |lines|
      && forall k :: 0 <= k < |lines| ==>
           d[k].text == (if vp.cols > AsciiWidth then lines[k] else lines[k][..GridWidth(vp) - 1])
  {
    FrameShape(vp, s);
    var g := s.sample(GridHeight(vp), GridWidth(vp));
    var lines := SplitLines(FrameOf(vp, s).value);
    assert lines == RowTexts(g);
    GridLinesDrawn(lines, vp, idx, total);
  }
}
