/** overlay.py: the interactive preview loop. Each decoded frame gets the
    mask (while `show_mask` is on) or a green dot per landmark (while it is
    off), is written to the output video and shown, and the key read after
    showing it may end the loop (`q`) or flip `show_mask` (`m`). Text and
    circle rasterisation are parameters: which pixels the warning text and a
    filled dot of radius 3 cover. The video decoder, the landmark predictor
    and the mask warp are parameters as in the batch processor. */
module OverlayPreview {
  import opened Common
  import opened Compositing

  /** `ord('q')` and `ord('m')`. */
  const KeyQuit := 113
  const KeyToggle := 109

  /** The colours of the landmark dots and of the warning text. */
  const Green := Bgr(0, 255, 0)
  const Red := Bgr(0, 0, 255)

  /** `cv2.waitKey(1) & 0xFF`: the low byte of the key code, so "no key"
      (-1) reads as 255, which is neither `q` nor `m`. */
  function KeyCode(raw: int): (k: int)
    ensures 0 <= k < 256
    ensures 0 <= raw < 256 ==> k == raw
    ensures raw == -1 ==> k == 255
    ensures (raw - k) % 256 == 0
  {
    raw % 256
  }

  /** The raw key read after showing frame `n`; the keys run out into "no
      key pressed". */
  function KeyAt(keys: seq<int>, n: nat): int
  {
    if n < |keys| then keys[n] else -1
  }

  // ---------------------------------------------------------------------
  // Drawing on a frame
  // ---------------------------------------------------------------------

  /** What a drawing call paints: the colour at row `i`, column `j`, if any. */
  type Layer = (int, int) -> Option<Bgr>

  function PaintedPixel(p: Bgr, layer: Layer, i: int, j: int): Bgr
  {
    match layer(i, j)
    case Some(c) => c
    case None => p
  }

  /** A frame value with a layer painted over it. */
  function Painted(f: FrameValue, layer: Layer): (g: FrameValue)
    ensures |g| == |f| && forall i :: 0 <= i < |f| ==> |g[i]| == |f[i]|
    ensures forall i, j :: 0 <= i < |f| && 0 <= j < |f[i]| ==> g[i][j] == PaintedPixel(f[i][j], layer, i, j)
  {
    seq(|f|, i requires 0 <= i < |f| =>
      seq(|f[i]|, j requires 0 <= j < |f[i]| => PaintedPixel(f[i][j], layer, i, j)))
  }

  /** Drawing into the frame array in place, as `cv2.circle` and
      `cv2.putText` do. */
  method PaintInPlace(frame: array2<Bgr>, layer: Layer)
    modifies frame
    ensures Snapshot(frame) == Painted(old(Snapshot(frame)), layer)
  {
    ghost var before := Snapshot(frame);
    for i := 0 to frame.Length0
      invariant forall a, b :: 0 <= a < frame.Length0 && 0 <= b < frame.Length1 ==>
        frame[a, b] == if a < i then PaintedPixel(before[a][b], layer, a, b) else before[a][b]
    {
      for j := 0 to frame.Length1
        invariant forall a, b :: 0 <= a < frame.Length0 && 0 <= b < frame.Length1 ==>
          frame[a, b] == if a < i || (a == i && b < j) then PaintedPixel(before[a][b], layer, a, b) else before[a][b]
      {
        frame[i, j] := PaintedPixel(frame[i, j], layer, i, j);
      }
    }
    SameFrame(Snapshot(frame), Painted(before, layer), frame.Length0, frame.Length1);
  }

  /** The red warning "[WARN] landmark idx mismatch"; `glyph` gives the
      pixels the text covers. */
  function WarnLayer(glyph: (int, int) -> bool): Layer
  {
    (i: int, j: int) => if glyph(i, j) then Some(Red) else None
  }

  /** Whether pixel `(i, j)` is on the dot of some landmark, each landmark
      truncated to integer pixel coordinates (`landmarks.astype(int)`);
      `disk` gives the offsets a filled circle of radius 3 covers. */
  function OnSomeDot(points: seq<Point>, disk: (int, int) -> bool, i: int, j: int): (on: bool)
    ensures on <==> exists k :: 0 <= k < |points| && disk(i - Trunc(points[k].y), j - Trunc(points[k].x))
  {
    if |points| == 0 then false
    else if disk(i - Trunc(points[0].y), j - Trunc(points[0].x)) then true
    else
      var on := OnSomeDot(points[1..], disk, i, j);
      assert forall k :: 1 <= k < |points| ==> points[k] == points[1..][k - 1];
      on
  }

  /** One green dot per landmark. */
  function DotLayer(points: seq<Point>, disk: (int, int) -> bool): Layer
  {
    (i: int, j: int) => if OnSomeDot(points, disk, i, j) then Some(Green) else None
  }

  // ---------------------------------------------------------------------
  // One iteration of the loop
  // ---------------------------------------------------------------------

  /** The frame written and shown, whether the loop ends, and `show_mask`
      for the next frame. */
  datatype Outcome = Outcome(frame: FrameValue, quit: bool, showMask: bool)

  /** The key handling at the end of the loop body: `q` ends the loop, `m`
      flips `show_mask`. */
  function AfterKey(f: FrameValue, key: int, showMask: bool): Outcome
  {
    Outcome(f, key == KeyQuit, if key == KeyQuit then showMask else if key == KeyToggle then !showMask else showMask)
  }

  /** One pass of the loop body for the frame `f` and the key code `key`
      read after showing it. The two early `continue` paths (fewer than
      three landmarks, and a mask entirely outside the frame) honour `q`
      but not `m`. */
  function PreviewStep(f: FrameValue, landmarks: Option<seq<Point>>, showMask: bool, key: int,
                       warp: (Point, Point) -> Mask, glyph: (int, int) -> bool, disk: (int, int) -> bool,
                       width: nat, height: nat): Outcome
  {
    if landmarks.None? || |landmarks.value| == 0 then AfterKey(f, key, showMask)
    else if !showMask then AfterKey(Painted(f, DotLayer(landmarks.value, disk)), key, showMask)
    else if |landmarks.value| < 3 then Outcome(Painted(f, WarnLayer(glyph)), key == KeyQuit, showMask)
    else match PlanOverlay(landmarks.value, warp, width, height)
      case None => Outcome(f, key == KeyQuit, showMask)
      case Some(plan) => AfterKey(CompositeFrame(f, plan.mask, plan.clip), key, showMask)
  }

  /** With no landmarks, or an empty landmark array, the frame is written as
      decoded and the keys act as usual. */
  lemma NoLandmarksPassThrough(f: FrameValue, landmarks: Option<seq<Point>>, showMask: bool, key: int,
                               warp: (Point, Point) -> Mask, glyph: (int, int) -> bool, disk: (int, int) -> bool,
                               width: nat, height: nat)
    requires landmarks.None? || |landmarks.value| == 0
    ensures PreviewStep(f, landmarks, showMask, key, warp, glyph, disk, width, height).frame == f
    ensures PreviewStep(f, landmarks, showMask, key, warp, glyph, disk, width, height).quit <==> key == KeyQuit
    ensures key == KeyToggle ==> PreviewStep(f, landmarks, showMask, key, warp, glyph, disk, width, height).showMask == !showMask
  {
  }

  /** With the mask on and fewer than three landmarks, the frame gets the
      red warning and nothing else, and `m` pressed then is lost. */
  lemma IndexMismatchWarnsAndIgnoresToggle(f: FrameValue, landmarks: seq<Point>, key: int,
                                           warp: (Point, Point) -> Mask, glyph: (int, int) -> bool,
                                           disk: (int, int) -> bool, width: nat, height: nat, i: nat, j: nat)
    requires 0 < |landmarks| < 3
    requires i < |f| && j < |f[i]|
    ensures PreviewStep(f, Some(landmarks), true, key, warp, glyph, disk, width, height).frame[i][j]
            == if glyph(i, j) then Red else f[i][j]
    ensures PreviewStep(f, Some(landmarks), true, key, warp, glyph, disk, width, height).showMask
  {
  }

  /** With the mask on and the mask entirely outside the frame, the frame is
      written as decoded and `m` pressed then is lost. */
  lemma OutsideFrameWrittenUnchanged(f: FrameValue, landmarks: seq<Point>, key: int,
                                     warp: (Point, Point) -> Mask, glyph: (int, int) -> bool,
                                     disk: (int, int) -> bool, width: nat, height: nat)
    requires |landmarks| >= 3
    requires !Overlaps(PlaceMask(landmarks, warp), width, height)
    ensures PreviewStep(f, Some(landmarks), true, key, warp, glyph, disk, width, height) == Outcome(f, key == KeyQuit, true)
  {
  }

  /** On every path `q` ends the loop, and `show_mask` changes only when `m`
      was pressed. */
  lemma KeysOnEveryPath(f: FrameValue, landmarks: Option<seq<Point>>, showMask: bool, key: int,
                        warp: (Point, Point) -> Mask, glyph: (int, int) -> bool, disk: (int, int) -> bool,
                        width: nat, height: nat)
    ensures PreviewStep(f, landmarks, showMask, key, warp, glyph, disk, width, height).quit <==> key == KeyQuit
    ensures PreviewStep(f, landmarks, showMask, key, warp, glyph, disk, width, height).showMask != showMask
            ==> key == KeyToggle
  {
  }

  /** The loop body on the frame array: draw or blend in place, then read
      the key. */
  method PreviewFrame(frame: array2<Bgr>, landmarks: Option<seq<Point>>, showMask: bool, key: int,
                      warp: (Point, Point) -> Mask, glyph: (int, int) -> bool, disk: (int, int) -> bool)
    returns (quit: bool, nextShowMask: bool)
    modifies frame
    ensures Outcome(Snapshot(frame), quit, nextShowMask)
            == PreviewStep(old(Snapshot(frame)), landmarks, showMask, key, warp, glyph, disk, frame.Length1, frame.Length0)
  {
    if landmarks.None? || |landmarks.value| == 0 {
      var o := AfterKey(Snapshot(frame), key, showMask);
      return o.quit, o.showMask;
    }
    if !showMask {
      PaintInPlace(frame, DotLayer(landmarks.value, disk));
      var o := AfterKey(Snapshot(frame), key, showMask);
      return o.quit, o.showMask;
    }
    if |landmarks.value| < 3 {
      PaintInPlace(frame, WarnLayer(glyph));
      return key == KeyQuit, showMask;
    }
    var plan := PlanOverlay(landmarks.value, warp, frame.Length1, frame.Length0);
    if plan.None? {
      return key == KeyQuit, showMask;
    }
    ApplyPlan(frame, plan);
    var o := AfterKey(Snapshot(frame), key, showMask);
    return o.quit, o.showMask;
  }

  /** `cap.read()` into a fresh array, then the loop body; `shown` is the
      frame handed to `out.write` and `cv2.imshow`. */
  method PreviewDecoded(f: FrameValue, height: nat, width: nat, landmarks: Option<seq<Point>>, showMask: bool, key: int,
                        warp: (Point, Point) -> Mask, glyph: (int, int) -> bool, disk: (int, int) -> bool)
    returns (shown: FrameValue, quit: bool, nextShowMask: bool)
    requires Rectangular(f, height, width)
    ensures Outcome(shown, quit, nextShowMask) == PreviewStep(f, landmarks, showMask, key, warp, glyph, disk, width, height)
  {
    var frame := Load(f, height, width);
    quit, nextShowMask := PreviewFrame(frame, landmarks, showMask, key, warp, glyph, disk);
    shown := Snapshot(frame);
  }

  // ---------------------------------------------------------------------
  // The whole loop
  // ---------------------------------------------------------------------

  /** Everything the loop consults besides the frames and the keys: the
      landmark predictor, the mask warp, the rasterisers and the frame size
      the capture reports. */
  datatype Env = Env(predict: FrameValue -> Option<seq<Point>>, warp: (Point, Point) -> Mask,
                     glyph: (int, int) -> bool, disk: (int, int) -> bool, width: nat, height: nat)

  /** The loop body for decoded frame `n`. */
  function StepAt(frames: seq<FrameValue>, keys: seq<int>, n: nat, showMask: bool, env: Env): Outcome
    requires n < |frames|
  {
    PreviewStep(frames[n], env.predict(frames[n]), showMask, KeyCode(KeyAt(keys, n)),
                env.warp, env.glyph, env.disk, env.width, env.height)
  }

  /** The state of the loop after it has considered the first `n` decoded
      frames: what was written, `show_mask`, and whether `q` ended it. */
  datatype Trace = Trace(written: seq<FrameValue>, showMask: bool, stopped: bool)

  /** The loop run over the first `n` frames, starting with `show_mask` on.
      The frame on which `q` is read is still written; after it nothing is. */
  function RunFor(frames: seq<FrameValue>, keys: seq<int>, n: nat, env: Env): (t: Trace)
    requires n <= |frames|
    ensures |t.written| <= n
  {
    if n == 0 then Trace([], true, false)
    else
      var t := RunFor(frames, keys, n - 1, env);
      if t.stopped then t
      else
        var o := StepAt(frames, keys, n - 1, t.showMask, env);
        Trace(t.written + [o.frame], o.showMask, o.quit)
  }

  /** Once `q` has ended the loop, later frames change nothing. */
  lemma {:induction false} StoppedStays(frames: seq<FrameValue>, keys: seq<int>, n: nat, m: nat, env: Env)
    requires n <= m <= |frames|
    requires RunFor(frames, keys, n, env).stopped
    ensures RunFor(frames, keys, m, env) == RunFor(frames, keys, n, env)
    decreases m - n
  {
    if m > n {
      StoppedStays(frames, keys, n, m - 1, env);
    }
  }

  /** Without `q` every frame considered is written, in order. */
  lemma {:induction false} AllFramesWrittenWithoutQuit(frames: seq<FrameValue>, keys: seq<int>, n: nat, env: Env)
    requires n <= |frames|
    requires forall k :: 0 <= k < n ==> KeyCode(KeyAt(keys, k)) != KeyQuit
    ensures !RunFor(frames, keys, n, env).stopped
    ensures |RunFor(frames, keys, n, env).written| == n
  {
    if n > 0 {
      AllFramesWrittenWithoutQuit(frames, keys, n - 1, env);
      var t := RunFor(frames, keys, n - 1, env);
      KeysOnEveryPath(frames[n - 1], env.predict(frames[n - 1]), t.showMask, KeyCode(KeyAt(keys, n - 1)),
                      env.warp, env.glyph, env.disk, env.width, env.height);
    }
  }

  /** When the loop has stopped, `q` was read right after the last frame
      written, which is the frame with the same position in the video. */
  lemma {:induction false} StopMeansQuit(frames: seq<FrameValue>, keys: seq<int>, n: nat, env: Env)
    requires n <= |frames|
    requires RunFor(frames, keys, n, env).stopped
    ensures |RunFor(frames, keys, n, env).written| > 0
    ensures KeyCode(KeyAt(keys, |RunFor(frames, keys, n, env).written| - 1)) == KeyQuit
  {
    var t := RunFor(frames, keys, n - 1, env);
    if t.stopped {
      StopMeansQuit(frames, keys, n - 1, env);
    } else {
      WrittenCountsFrames(frames, keys, n - 1, env);
      KeysOnEveryPath(frames[n - 1], env.predict(frames[n - 1]), t.showMask, KeyCode(KeyAt(keys, n - 1)),
                      env.warp, env.glyph, env.disk, env.width, env.height);
    }
  }

  /** While the loop runs, one frame is written per frame read. */
  lemma {:induction false} WrittenCountsFrames(frames: seq<FrameValue>, keys: seq<int>, n: nat, env: Env)
    requires n <= |frames|
    requires !RunFor(frames, keys, n, env).stopped
    ensures |RunFor(frames, keys, n, env).written| == n
  {
    if n > 0 {
      WrittenCountsFrames(frames, keys, n - 1, env);
    }
  }

  /** The main loop: read a frame, predict, draw or blend, write, show, read
      a key; stop at the end of the video or on `q`. `show_mask` starts on. */
  method RunPreview(frames: seq<FrameValue>, keys: seq<int>, env: Env) returns (written: seq<FrameValue>)
    requires forall k :: 0 <= k < |frames| ==> Rectangular(frames[k], env.height, env.width)
    ensures written == RunFor(frames, keys, |frames|, env).written
  {
    written := [];
    var showMask := true;
    var n := 0;
    while n < |frames|
      invariant n <= |frames|
      invariant RunFor(frames, keys, n, env) == Trace(written, showMask, false)
    {
      var shown, quit, next := PreviewDecoded(frames[n], env.height, env.width, env.predict(frames[n]), showMask,
                                              KeyCode(KeyAt(keys, n)), env.warp, env.glyph, env.disk);
      written, showMask := written + [shown], next;
      n := n + 1;
      if quit {
        StoppedStays(frames, keys, n, |frames|, env);
        return;
      }
    }
  }
}
