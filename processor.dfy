/** backend/overlay_processor.py: the batch overlay of a mask onto every
    frame of a video. The video decoder, the landmark predictor and the mask
    warp are parameters: the decoded frames arrive as values, `predict`
    gives the landmarks of a frame (or none), `warp` gives the resized and
    rotated mask for a pair of eye positions, and `opens` says which codecs
    the local OpenCV build can open for writing. */
module OverlayProcessor {
  import opened Common
  import opened Compositing

  /** The codecs tried, in order. */
  const PreferredCodecs: seq<string> := ["avc1", "mp4v", "H264", "XVID", "MJPG"]

  /** The frame rate the writer is given: the one the capture reports, or
      24 when it reports 0 (`cap.get(...) or 24`). */
  function Fps(reported: real): (fps: real)
    ensures fps != 0.0
    ensures reported >= 0.0 ==> fps > 0.0
    ensures reported != 0.0 ==> fps == reported
    ensures reported == 0.0 ==> fps == 24.0
  {
    if reported == 0.0 then 24.0 else reported
  }

  /** The position of the first codec that opens, if any. */
  function FirstOpening(codecs: seq<string>, opens: string -> bool): (r: Option<nat>)
    ensures r.Some? ==> r.value < |codecs| && opens(codecs[r.value])
    ensures r.Some? ==> forall k :: 0 <= k < r.value ==> !opens(codecs[k])
    ensures r.None? <==> forall k :: 0 <= k < |codecs| ==> !opens(codecs[k])
  {
    if |codecs| == 0 then None
    else if opens(codecs[0]) then Some(0)
    else match FirstOpening(codecs[1..], opens)
      case None => None
      case Some(k) => Some(k + 1)
  }

  /** The codec loop: each codec is tried in turn and the loop stops at the
      first writer that opens. `tried` counts the writers created, so no
      codec after the chosen one is ever tried. */
  method ChooseCodec(opens: string -> bool) returns (chosen: Option<string>, tried: nat)
    ensures FirstOpening(PreferredCodecs, opens).None? ==> chosen.None? && tried == |PreferredCodecs|
    ensures FirstOpening(PreferredCodecs, opens).Some? ==>
      chosen == Some(PreferredCodecs[FirstOpening(PreferredCodecs, opens).value])
      && tried == FirstOpening(PreferredCodecs, opens).value + 1
  {
    chosen, tried := None, 0;
    while tried < |PreferredCodecs|
      invariant tried <= |PreferredCodecs|
      invariant forall k :: 0 <= k < tried ==> !opens(PreferredCodecs[k])
      invariant chosen.None?
    {
      if opens(PreferredCodecs[tried]) {
        chosen := Some(PreferredCodecs[tried]);
        tried := tried + 1;
        return;
      }
      tried := tried + 1;
    }
  }

  /** On a build where only `H264` opens, the first two codecs are tried and
      fail, `H264` is chosen, and `XVID` and `MJPG` are never tried. */
  lemma ThirdCodecChosen(opens: string -> bool)
    requires !opens("avc1") && !opens("mp4v") && opens("H264")
    ensures FirstOpening(PreferredCodecs, opens) == Some(2)
  {
    assert PreferredCodecs[0] == "avc1" && PreferredCodecs[1] == "mp4v" && PreferredCodecs[2] == "H264";
  }

  /** The frame the loop writes for one decoded frame: unchanged when there
      are no landmarks, when there are fewer than three, or when the placed
      mask misses the frame; otherwise blended with the mask. */
  function FrameResult(f: FrameValue, landmarks: Option<seq<Point>>, warp: (Point, Point) -> Mask,
                       width: nat, height: nat): FrameValue
  {
    if landmarks.None? || |landmarks.value| < 3 then f
    else match PlanOverlay(landmarks.value, warp, width, height)
      case None => f
      case Some(plan) => CompositeFrame(f, plan.mask, plan.clip)
  }

  /** A written frame has the shape of the decoded one, and a pixel outside
      the mask's placement (or in a frame left without a mask) is the
      decoded pixel. */
  lemma FrameResultChangesOnlyUnderMask(f: FrameValue, landmarks: Option<seq<Point>>, warp: (Point, Point) -> Mask,
                                        width: nat, height: nat, i: nat, j: nat)
    requires Rectangular(f, height, width)
    requires i < height && j < width
    requires landmarks.None? || |landmarks.value| < 3 || !PlaceMask(landmarks.value, warp).Contains(i, j)
    ensures Rectangular(FrameResult(f, landmarks, warp, width, height), height, width)
    ensures FrameResult(f, landmarks, warp, width, height)[i][j] == f[i][j]
  {
    if landmarks.Some? && |landmarks.value| >= 3 {
      var r := PlanOverlay(landmarks.value, warp, width, height);
      if r.Some? {
        var c := ClipToFrame(PlaceMask(landmarks.value, warp), width, height);
        assert !c.Covers(i, j);
      }
    }
  }

  /** One pass of the frame loop body on the frame array `cap.read()` gave. */
  method ProcessFrame(frame: array2<Bgr>, landmarks: Option<seq<Point>>, warp: (Point, Point) -> Mask)
    modifies frame
    ensures Snapshot(frame) == FrameResult(old(Snapshot(frame)), landmarks, warp, frame.Length1, frame.Length0)
  {
    if landmarks.None? || |landmarks.value| < 3 {
      return;
    }
    var plan := PlanOverlay(landmarks.value, warp, frame.Length1, frame.Length0);
    ApplyPlan(frame, plan);
  }

  /** The frames written for a run of decoded frames, one per frame, in order. */
  function Rendered(frames: seq<FrameValue>, predict: FrameValue -> Option<seq<Point>>,
                    warp: (Point, Point) -> Mask, width: nat, height: nat): (out: seq<FrameValue>)
    ensures |out| == |frames|
    ensures forall k :: 0 <= k < |frames| ==>
      out[k] == FrameResult(frames[k], predict(frames[k]), warp, width, height)
  {
    if |frames| == 0 then []
    else
      Rendered(frames[..|frames| - 1], predict, warp, width, height)
      + [FrameResult(frames[|frames| - 1], predict(frames[|frames| - 1]), warp, width, height)]
  }

  /** A frame with no detected face is written exactly as decoded. */
  lemma NoFaceFrameWrittenUnchanged(frames: seq<FrameValue>, predict: FrameValue -> Option<seq<Point>>,
                                    warp: (Point, Point) -> Mask, width: nat, height: nat, k: nat)
    requires k < |frames| && predict(frames[k]).None?
    ensures Rendered(frames, predict, warp, width, height)[k] == frames[k]
  {
  }

  /** The frame loop: read, process in place, write, until the capture runs
      out of frames. */
  method ProcessFrames(frames: seq<FrameValue>, width: nat, height: nat,
                       predict: FrameValue -> Option<seq<Point>>, warp: (Point, Point) -> Mask)
    returns (written: seq<FrameValue>)
    requires forall k :: 0 <= k < |frames| ==> Rectangular(frames[k], height, width)
    ensures written == Rendered(frames, predict, warp, width, height)
  {
    written := [];
    var n := 0;
    while n < |frames|
      invariant n <= |frames|
      invariant written == Rendered(frames[..n], predict, warp, width, height)
    {
      var frame := Load(frames[n], height, width);
      ProcessFrame(frame, predict(frames[n]), warp);
      written := written + [Snapshot(frame)];
      assert frames[..n + 1][..n] == frames[..n];
      n := n + 1;
    }
    assert frames[..n] == frames;
  }

  /** What the run hands to the video writer. */
  datatype Output = Output(codec: string, fps: real, width: nat, height: nat, written: seq<FrameValue>)

  /** `process_video`. Fails with the RuntimeError message, before any frame
      is read, when no codec opens; otherwise writes one processed frame per
      decoded frame, in order, with the first codec that opens. */
  method ProcessVideo(frames: seq<FrameValue>, reportedFps: real, width: nat, height: nat,
                      predict: FrameValue -> Option<seq<Point>>, warp: (Point, Point) -> Mask,
                      opens: string -> bool)
    returns (r: Result<Output, string>, framesRead: nat)
    requires forall k :: 0 <= k < |frames| ==> Rectangular(frames[k], height, width)
    ensures r.Failure? <==> FirstOpening(PreferredCodecs, opens).None?
    ensures r.Failure? ==> framesRead == 0
    ensures r.Success? ==> framesRead == |frames|
    ensures r.Success? ==> r.value.codec == PreferredCodecs[FirstOpening(PreferredCodecs, opens).value]
    ensures r.Success? ==> r.value.fps == Fps(reportedFps) && r.value.width == width && r.value.height == height
    ensures r.Success? ==> r.value.written == Rendered(frames, predict, warp, width, height)
  {
    var fps := Fps(reportedFps);
    var chosen, _ := ChooseCodec(opens);
    if chosen.None? {
      return Failure("Failed to open VideoWriter with any supported codec. Install ffmpeg/libx264 etc."), 0;
    }
    var written := ProcessFrames(frames, width, height, predict, warp);
    framesRead := |frames|;
    r := Success(Output(chosen.value, fps, width, height, written));
  }

  /** `main`: exactly three arguments after the program name, or the usage
      message and exit status 1. */
  function ParseArgs(argv: seq<string>): (r: Result<(string, string, string), int>)
    ensures r.Failure? <==> |argv| != 4
    ensures r.Failure? ==> r.error == 1
    ensures r.Success? ==> r.value == (argv[1], argv[2], argv[3])
  {
    if |argv| != 4 then Failure(1) else Success((argv[1], argv[2], argv[3]))
  }
}
