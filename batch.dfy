/**
 * Batch conversion (app.py, `convert_video`): convert every still in order
 * and keep the truthy results, `[f for f in results if f]`.
 */
module Batch {
  import opened Options
  import opened Viewport
  import opened Frames

  /** Python truthiness of a conversion result: not None and not empty. */
  predicate Truthy(r: Option<string>) {
    r.Some? && r.value != ""
  }

  /** The results that survive the filter, in their original order. */
  function KeepTruthy(results: seq<Option<string>>): (frames: seq<string>)
    ensures |frames| <= |results|
    ensures forall k :: 0 <= k < |frames| ==> frames[k] != ""
  {
    if results == [] then []
    else (if Truthy(results[0]) then [results[0].value] else []) + KeepTruthy(results[1..])
  }

  /** Filtering distributes over concatenation: order is kept, nothing moves. */
  lemma {:induction false} KeepTruthyAppend(a: seq<Option<string>>, b: seq<Option<string>>)
    ensures KeepTruthy(a + b) == KeepTruthy(a) + KeepTruthy(b)
  {
    if a == [] {
      assert a + b == b;
    } else {
      assert (a + b)[0] == a[0];
      assert (a + b)[1..] == a[1..] + b;
      KeepTruthyAppend(a[1..], b);
    }
  }

  /** A frame is kept exactly when some result carries it and it is not empty. */
  lemma {:induction false} KeepTruthyMember(results: seq<Option<string>>, f: string)
    ensures f in KeepTruthy(results) <==> Some(f) in results && f != ""
  {
    if results != [] {
      KeepTruthyMember(results[1..], f);
      assert results == [results[0]] + results[1..];
    }
  }

  /** Nothing survives exactly when every conversion failed. */
  lemma {:induction false} KeepTruthyEmpty(results: seq<Option<string>>)
    ensures KeepTruthy(results) == [] <==> forall i :: 0 <= i < |results| ==> !Truthy(results[i])
  {
    if results != [] {
      KeepTruthyEmpty(results[1..]);
      assert forall i :: 1 <= i < |results| ==> results[i] == results[1..][i - 1];
    }
  }

  /** When every conversion succeeds, the filter keeps all frames unchanged. */
  lemma {:induction false} KeepTruthyAll(results: seq<Option<string>>)
    requires forall i :: 0 <= i < |results| ==> Truthy(results[i])
    ensures |KeepTruthy(results)| == |results|
    ensures forall i :: 0 <= i < |results| ==> Some(KeepTruthy(results)[i]) == results[i]
  {
    if results != [] {
      assert forall i :: 1 <= i < |results| ==> results[i] == results[1..][i - 1];
      KeepTruthyAll(results[1..]);
    }
  }

  /** The per-still results on viewport vp, one per input, in input order. */
  function ConvertAll(vp: Size, stills: seq<Still>): (results: seq<Option<string>>)
    requires AtLeastMinimum(vp)
    ensures |results| == |stills|
    ensures forall i :: 0 <= i < |stills| ==> results[i] == FrameOf(vp, stills[i])
  {
    if stills == [] then [] else [FrameOf(vp, stills[0])] + ConvertAll(vp, stills[1..])
  }

  /**
   * `list(executor.map(convert, frame_files))`. The pool's map returns results
   * in input order, so this is the sequential loop over the stills.
   */
  method ConvertBatch(vp: Size, stills: seq<Still>) returns (results: seq<Option<string>>)
    requires AtLeastMinimum(vp)
    ensures results == ConvertAll(vp, stills)
  {
    results := [];
    var i := 0;
    while i < |stills|
      invariant 0 <= i <= |stills|
      invariant |results| == i
      invariant forall k :: 0 <= k < i ==> results[k] == FrameOf(vp, stills[k])
    {
      var r := ConvertToAscii(vp, stills[i]);
      results := results + [r];
      i := i + 1;
    }
  }

  /**
   * On a viewport of at least 24 by 80, nothing survives conversion exactly
   * when no still could be read.
   */
  lemma NothingToPlayIffAllUnreadable(vp: Size, stills: seq<Still>)
    requires AtLeastMinimum(vp)
    requires forall i :: 0 <= i < |stills| ==> ResizesExactly(stills[i])
    ensures KeepTruthy(ConvertAll(vp, stills)) == [] <==>
      forall i :: 0 <= i < |stills| ==> stills[i].Unreadable?
  {
    var results := ConvertAll(vp, stills);
    KeepTruthyEmpty(results);
    forall i | 0 <= i < |stills| ensures Truthy(results[i]) <==> stills[i].Readable? {
      ReadableGivesNonEmpty(vp, stills[i]);
    }
  }
}
