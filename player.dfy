/**
 * The player object (app.py, class `HDAsciiPlayer`): its viewport, the frames
 * it converts, and the playback loop over them.
 */
module Player {
  import opened Options
  import opened Glyphs
  import opened Viewport
  import opened Frames
  import opened Batch
  import opened Playback

  class HDAsciiPlayer {
    /** `term_size`, fixed when the player is made. */
    var termSize: Size
    /** `ascii_frames`, the frames to play, in display order. */
    var asciiFrames: seq<string>

    ghost predicate Valid()
      reads this
    {
      AtLeastMinimum(termSize)
    }

    /** `__init__`: query the terminal once and start with no frames. */
    constructor (query: Option<(int, int)>)
      ensures Valid()
      ensures termSize == TerminalSize(query) && asciiFrames == []
    {
      termSize := TerminalSize(query);
      asciiFrames := [];
    }

    /**
     * `convert_video`. The missing input file and a non-zero ffmpeg exit both
     * return false and leave the frames as they were; otherwise every still
     * is converted in order, the truthy results become the frames, and the
     * result says whether any survived.
     */
    method ConvertVideo(videoExists: bool, ffmpegStatus: int, stills: seq<Still>) returns (ok: bool)
      requires Valid()
      modifies this
      ensures Valid() && termSize == old(termSize)
      ensures !videoExists || ffmpegStatus != 0 ==> !ok && asciiFrames == old(asciiFrames)
      ensures videoExists && ffmpegStatus == 0 ==>
        && asciiFrames == KeepTruthy(ConvertAll(termSize, stills))
        && (ok <==> asciiFrames != [])
    {
      if !videoExists {
        return false;
      }
      if ffmpegStatus != 0 {
        return false;
      }
      var results := ConvertBatch(termSize, stills);
      asciiFrames := KeepTruthy(results);
      ok := asciiFrames != [];
    }

    /**
     * `play`: for every frame in order, clear, draw its lines and the status
     * line, refresh, read a key and stop on 'q', else sleep; a draw call that
     * raises `curses.error` skips the rest of that frame.
     */
    method Play(key: nat -> int, fault: nat -> Option<nat>) returns (trace: seq<Command>)
      requires Valid()
      ensures trace == PlayTrace(asciiFrames, termSize, key, fault)
    {
      trace := [];
      if asciiFrames == [] {
        return;
      }
      var idx := 0;
      while idx < |asciiFrames|
        invariant 0 <= idx <= |asciiFrames|
        invariant trace + PlayFrom(asciiFrames, termSize, key, fault, idx)
               == PlayTrace(asciiFrames, termSize, key, fault)
      {
        var calls, quit := PlayFrame(asciiFrames, termSize, key, fault, idx);
        PlayFromStep(asciiFrames, termSize, key, fault, idx);
        trace := trace + calls;
        if quit {
          assert trace == PlayTrace(asciiFrames, termSize, key, fault);
          break;
        }
        idx := idx + 1;
      }
    }
  }
}
