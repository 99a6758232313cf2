/** The mask overlay step that backend/overlay_processor.py and overlay.py
    share: placing the rotated mask relative to the eyes and the nose tip,
    clipping it to the frame, and alpha-blending the visible part into the
    frame in place. Resizing and rotating the mask (cv2.resize,
    cv2.warpAffine and the trigonometry around them) arrive as a function
    from the two eye positions to the rotated mask. */
module Compositing {
  import opened Common

  /** An 8-bit channel value (numpy `uint8`). */
  type Byte = x: int | 0 <= x < 256

  /** A frame pixel as OpenCV stores it: blue, green, red. */
  datatype Bgr = Bgr(b: Byte, g: Byte, r: Byte)

  /** A mask pixel as PIL's `convert("RGBA")` stores it: red, green, blue,
      alpha. */
  datatype Rgba = Rgba(r: Byte, g: Byte, b: Byte, a: Byte)

  /** A mask image of `h` rows of `w` pixels. */
  datatype MaskImage = MaskImage(w: nat, h: nat, px: seq<seq<Rgba>>)
  {
    predicate Valid()
    {
      |px| == h && forall i :: 0 <= i < |px| ==> |px[i]| == w
    }
  }

  /** The rotated mask `warpAffine` produces is always a full rectangle. */
  type Mask = m: MaskImage | m.Valid() witness MaskImage(0, 0, [])

  /** A frame as a value: rows of pixels. */
  type FrameValue = seq<seq<Bgr>>

  predicate Rectangular(f: FrameValue, height: nat, width: nat)
  {
    |f| == height && forall i :: 0 <= i < |f| ==> |f[i]| == width
  }

  // ---------------------------------------------------------------------
  // Alpha blending
  // ---------------------------------------------------------------------

  lemma MulNonneg(a: int, b: int)
    requires a >= 0 && b >= 0
    ensures a * b >= 0
  {
  }

  /** The weighted sum behind a blend lies between 255 times the smaller and
      255 times the larger of the two channel values. */
  lemma MixBounds(alpha: Byte, fg: Byte, bg: Byte)
    ensures 255 * Min(fg, bg) <= alpha * fg + (255 - alpha) * bg <= 255 * Max(fg, bg)
  {
    var lo, hi := Min(fg, bg), Max(fg, bg);
    MulNonneg(alpha, fg - lo);
    MulNonneg(255 - alpha, bg - lo);
    MulNonneg(alpha, hi - fg);
    MulNonneg(255 - alpha, hi - bg);
    assert alpha * fg + (255 - alpha) * bg - 255 * lo == alpha * (fg - lo) + (255 - alpha) * (bg - lo);
    assert 255 * hi - (alpha * fg + (255 - alpha) * bg) == alpha * (hi - fg) + (255 - alpha) * (hi - bg);
  }

  /** One channel of `(alpha * fg + (1 - alpha) * bg).astype(np.uint8)` with
      `alpha = a / 255`: the weighted mean, truncated. An opaque mask pixel
      shows the mask, a transparent one keeps the frame, and the result never
      leaves the range between the two inputs. */
  function Mix(alpha: Byte, fg: Byte, bg: Byte): (v: Byte)
    ensures alpha == 255 ==> v == fg
    ensures alpha == 0 ==> v == bg
    ensures Min(fg, bg) <= v <= Max(fg, bg)
  {
    MixBounds(alpha, fg, bg);
    (alpha * fg + (255 - alpha) * bg) / 255
  }

  /** The blend with the channels matched by colour: the mask's red goes into
      the frame's red, and so on. This is the behaviour the overlay is meant
      to have and the one the rest of the model uses. */
  function BlendPixel(m: Rgba, f: Bgr): (v: Bgr)
    ensures m.a == 255 ==> v == Bgr(m.b, m.g, m.r)
    ensures m.a == 0 ==> v == f
  {
    Bgr(Mix(m.a, m.b, f.b), Mix(m.a, m.g, f.g), Mix(m.a, m.r, f.r))
  }

  /** The blend as the code writes it: `mask_crop[..., :3]` is R, G, B while
      the frame slice is B, G, R, and numpy pairs them by position, so mask
      channel k lands in frame channel k. */
  function BlendPixelAsWritten(m: Rgba, f: Bgr): (v: Bgr)
    ensures m.a == 255 ==> v == Bgr(m.r, m.g, m.b)
    ensures m.a == 0 ==> v == f
  {
    Bgr(Mix(m.a, m.r, f.b), Mix(m.a, m.g, f.g), Mix(m.a, m.b, f.r))
  }

  /** The mask pixel with its red and blue exchanged. */
  function SwapRedBlue(m: Rgba): Rgba
  {
    Rgba(m.b, m.g, m.r, m.a)
  }

  /** The blend as written is exactly the intended blend of a mask whose red
      and blue have been exchanged. */
  lemma AsWrittenSwapsRedAndBlue(m: Rgba, f: Bgr)
    ensures BlendPixelAsWritten(m, f) == BlendPixel(SwapRedBlue(m), f)
  {
  }

  /** An opaque pure-red mask pixel over a black frame pixel: as written the
      frame turns pure blue; the intended blend turns it pure red. */
  lemma OpaqueRedComesOutBlue()
    ensures BlendPixelAsWritten(Rgba(255, 0, 0, 255), Bgr(0, 0, 0)) == Bgr(255, 0, 0)
    ensures BlendPixel(Rgba(255, 0, 0, 255), Bgr(0, 0, 0)) == Bgr(0, 0, 255)
  {
  }

  // ---------------------------------------------------------------------
  // Placement and clipping
  // ---------------------------------------------------------------------

  /** Where the rotated mask goes in frame coordinates, before clipping:
      columns `x1 <= x < x2`, rows `y1 <= y < y2`. */
  datatype Placement = Placement(x1: int, y1: int, x2: int, y2: int)
  {
    predicate Contains(i: int, j: int) { y1 <= i < y2 && x1 <= j < x2 }
  }

  /** Some pixel of a `width` by `height` frame lies under the placed mask. */
  predicate Overlaps(p: Placement, width: nat, height: nat)
  {
    exists i, j :: 0 <= i < height && 0 <= j < width && p.Contains(i, j)
  }

  /** `center_x = int((left_eye[0] + right_eye[0]) / 2)`. */
  function CenterX(leftEye: Point, rightEye: Point): int
  {
    Trunc((leftEye.x + rightEye.x) / 2.0)
  }

  /** The mask is centred between the eyes (one column to the right for an
      odd width, from the floor division `rot_w // 2`) and its top edge
      is 80% of its height above the nose tip, truncated toward zero. */
  function Place(rotW: nat, rotH: nat, leftEye: Point, rightEye: Point, nose: Point): (p: Placement)
    ensures p.x2 - p.x1 == rotW && p.y2 - p.y1 == rotH
    ensures p.x1 + p.x2 == 2 * CenterX(leftEye, rightEye) + rotW % 2
    ensures p.y1 as real - 1.0 < nose.y - rotH as real * 0.8 < p.y1 as real + 1.0
  {
    var x1 := CenterX(leftEye, rightEye) - rotW / 2;
    var y1 := Trunc(nose.y - rotH as real * 0.8);
    Placement(x1, y1, x1 + rotW, y1 + rotH)
  }

  /** A mask at least five rows tall covers the row of the nose tip. */
  lemma NoseInsideMask(rotW: nat, rotH: nat, leftEye: Point, rightEye: Point, nose: Point)
    requires rotH >= 5
    ensures Place(rotW, rotH, leftEye, rightEye, nose).y1 as real <= nose.y
    ensures nose.y < Place(rotW, rotH, leftEye, rightEye, nose).y2 as real
  {
  }

  /** The frame rectangle `[fy1, fy2) x [fx1, fx2)` the blend writes and the
      position `(my1, mx1)` in the mask of its first pixel. */
  datatype Clip = Clip(fx1: int, fy1: int, fx2: int, fy2: int, mx1: int, my1: int)
  {
    /** `mask_x2 > mask_x1 and mask_y2 > mask_y1`. */
    predicate NonEmpty() { fx2 > fx1 && fy2 > fy1 }

    predicate Covers(i: int, j: int) { fy1 <= i < fy2 && fx1 <= j < fx2 }
  }

  /** Clipping the placed mask to a `width` by `height` frame. The clipped
      rectangle holds exactly the frame pixels the placed mask covers, it is
      non-empty exactly when the placement overlaps the frame, and each of
      its pixels is read from the mask pixel at the same offset from the
      placement's corner. */
  function ClipToFrame(p: Placement, width: nat, height: nat): (c: Clip)
    ensures forall i, j :: c.Covers(i, j) <==> 0 <= i < height && 0 <= j < width && p.Contains(i, j)
    ensures c.NonEmpty() <==> Overlaps(p, width, height)
    ensures c.NonEmpty() ==> 0 <= c.fx1 && c.fx2 <= width && 0 <= c.fy1 && c.fy2 <= height
    ensures c.mx1 == c.fx1 - p.x1 && c.my1 == c.fy1 - p.y1
    ensures 0 <= c.mx1 && 0 <= c.my1
    ensures c.NonEmpty() ==> c.fx2 - p.x1 <= p.x2 - p.x1 && c.fy2 - p.y1 <= p.y2 - p.y1
  {
    var x1c, y1c := Max(0, p.x1), Max(0, p.y1);
    var x2c, y2c := Min(width, p.x2), Min(height, p.y2);
    var c := Clip(x1c, y1c, x2c, y2c, x1c - p.x1, y1c - p.y1);
    assert c.NonEmpty() ==> c.Covers(y1c, x1c);
    c
  }

  /** The clipped rectangle reads only pixels the mask has. */
  predicate Fits(m: Mask, c: Clip)
  {
    c.NonEmpty() ==>
      0 <= c.mx1 && c.mx1 + (c.fx2 - c.fx1) <= m.w && 0 <= c.my1 && c.my1 + (c.fy2 - c.fy1) <= m.h
  }

  /** The mask pixel that lands on frame pixel `(i, j)`. */
  function MaskAt(m: Mask, c: Clip, i: int, j: int): Rgba
    requires Fits(m, c) && c.Covers(i, j)
  {
    m.px[i - c.fy1 + c.my1][j - c.fx1 + c.mx1]
  }

  /** Frame pixel `(i, j)` after the blend: blended when the clipped mask
      covers it, unchanged otherwise. */
  function Composited(f: Bgr, m: Mask, c: Clip, i: int, j: int): Bgr
    requires Fits(m, c)
  {
    if c.Covers(i, j) then BlendPixel(MaskAt(m, c, i, j), f) else f
  }

  /** A whole frame value after the blend. */
  function CompositeFrame(f: FrameValue, m: Mask, c: Clip): (g: FrameValue)
    requires Fits(m, c)
    ensures |g| == |f| && forall i :: 0 <= i < |f| ==> |g[i]| == |f[i]|
    ensures forall i, j :: 0 <= i < |f| && 0 <= j < |f[i]| ==> g[i][j] == Composited(f[i][j], m, c, i, j)
  {
    seq(|f|, i requires 0 <= i < |f| =>
      seq(|f[i]|, j requires 0 <= j < |f[i]| => Composited(f[i][j], m, c, i, j)))
  }

  /** Outside the clipped rectangle the frame is untouched, and where the
      mask is transparent the frame is untouched too. */
  lemma CompositeKeepsUncovered(f: FrameValue, m: Mask, c: Clip, i: nat, j: nat)
    requires Fits(m, c)
    requires i < |f| && j < |f[i]|
    requires !c.Covers(i, j) || MaskAt(m, c, i, j).a == 0
    ensures CompositeFrame(f, m, c)[i][j] == f[i][j]
  {
  }

  /** The mask with red and blue exchanged in every pixel. */
  function SwapMask(m: Mask): (s: Mask)
    ensures s.w == m.w && s.h == m.h
    ensures forall i, j :: 0 <= i < m.h && 0 <= j < m.w ==> s.px[i][j] == SwapRedBlue(m.px[i][j])
  {
    MaskImage(m.w, m.h, seq(m.h, i requires 0 <= i < m.h =>
      seq(m.w, j requires 0 <= j < m.w => SwapRedBlue(m.px[i][j]))))
  }

  /** A whole frame value after the blend as the code writes it. */
  function CompositeFrameAsWritten(f: FrameValue, m: Mask, c: Clip): (g: FrameValue)
    requires Fits(m, c)
  {
    seq(|f|, i requires 0 <= i < |f| =>
      seq(|f[i]|, j requires 0 <= j < |f[i]| =>
        if c.Covers(i, j) then BlendPixelAsWritten(MaskAt(m, c, i, j), f[i][j]) else f[i][j]))
  }

  /** Frame by frame, the blend as written composites the mask with red and
      blue exchanged: every member below that blends in the intended order
      describes the code's output once it is handed `SwapMask(m)`. */
  lemma CompositeFrameAsWrittenSwapsMask(f: FrameValue, m: Mask, c: Clip)
    requires Fits(m, c)
    ensures Fits(SwapMask(m), c)
    ensures CompositeFrameAsWritten(f, m, c) == CompositeFrame(f, SwapMask(m), c)
  {
    var g := CompositeFrameAsWritten(f, m, c);
    var h := CompositeFrame(f, SwapMask(m), c);
    forall i | 0 <= i < |f|
      ensures g[i] == h[i]
    {
      forall j | 0 <= j < |f[i]|
        ensures g[i][j] == h[i][j]
      {
        if c.Covers(i, j) {
          AsWrittenSwapsRedAndBlue(MaskAt(m, c, i, j), f[i][j]);
        }
      }
    }
  }

  /** `frame[y1c:y2c, x1c:x2c] = blend(mask_crop, frame_crop)`: the clipped
      rectangle of the frame array is overwritten in place, row by row. */
  method BlendRegion(frame: array2<Bgr>, m: Mask, c: Clip)
    requires Fits(m, c) && c.NonEmpty()
    requires 0 <= c.fy1 && c.fy2 <= frame.Length0 && 0 <= c.fx1 && c.fx2 <= frame.Length1
    modifies frame
    ensures forall i, j :: 0 <= i < frame.Length0 && 0 <= j < frame.Length1 ==>
      frame[i, j] == Composited(old(frame[i, j]), m, c, i, j)
  {
    for i := c.fy1 to c.fy2
      invariant forall a, b :: 0 <= a < frame.Length0 && 0 <= b < frame.Length1 ==>
        frame[a, b] == if a < i then Composited(old(frame[a, b]), m, c, a, b) else old(frame[a, b])
    {
      for j := c.fx1 to c.fx2
        invariant forall a, b :: 0 <= a < frame.Length0 && 0 <= b < frame.Length1 ==>
          frame[a, b] == if a < i || (a == i && b < j) then Composited(old(frame[a, b]), m, c, a, b) else old(frame[a, b])
      {
        frame[i, j] := BlendPixel(MaskAt(m, c, i, j), frame[i, j]);
      }
    }
  }

  // ---------------------------------------------------------------------
  // Frames as arrays
  // ---------------------------------------------------------------------

  /** Two frame values with the same shape and the same pixels are equal. */
  lemma SameFrame(f: FrameValue, g: FrameValue, height: nat, width: nat)
    requires Rectangular(f, height, width) && Rectangular(g, height, width)
    requires forall i, j :: 0 <= i < height && 0 <= j < width ==> f[i][j] == g[i][j]
    ensures f == g
  {
    forall i | 0 <= i < height ensures f[i] == g[i] {
      assert forall j :: 0 <= j < width ==> f[i][j] == g[i][j];
    }
  }

  /** The pixels of a frame array as a value. */
  function Snapshot(frame: array2<Bgr>): (f: FrameValue)
    reads frame
    ensures Rectangular(f, frame.Length0, frame.Length1)
    ensures forall i, j :: 0 <= i < frame.Length0 && 0 <= j < frame.Length1 ==> f[i][j] == frame[i, j]
  {
    seq(frame.Length0, i requires 0 <= i < frame.Length0 reads frame =>
      seq(frame.Length1, j requires 0 <= j < frame.Length1 reads frame => frame[i, j]))
  }

  /** A decoded frame copied into a fresh array, as `cap.read()` hands it out. */
  method Load(f: FrameValue, height: nat, width: nat) returns (frame: array2<Bgr>)
    requires Rectangular(f, height, width)
    ensures fresh(frame)
    ensures frame.Length0 == height && frame.Length1 == width
    ensures Snapshot(frame) == f
  {
    frame := new Bgr[height, width]((i, j) requires 0 <= i < height && 0 <= j < width => f[i][j]);
    SameFrame(Snapshot(frame), f, height, width);
  }

  /** What the overlay does to one frame once the landmarks are known: the
      rotated mask and the clipped rectangle to blend, when there is one. */
  datatype Plan = Plan(mask: Mask, clip: Clip)

  /** The rotated mask for the two eyes, placed by the eyes and the nose tip. */
  function PlaceMask(landmarks: seq<Point>, warp: (Point, Point) -> Mask): Placement
    requires |landmarks| >= 3
  {
    var m := warp(landmarks[0], landmarks[1]);
    Place(m.w, m.h, landmarks[0], landmarks[1], landmarks[2])
  }

  /** The placement and clipping both scripts perform for the first three
      landmarks (left eye, right eye, nose tip). `None` when the placed mask
      misses the frame entirely, the case both scripts skip. */
  function PlanOverlay(landmarks: seq<Point>, warp: (Point, Point) -> Mask, width: nat, height: nat): (r: Option<Plan>)
    requires |landmarks| >= 3
    ensures r.Some? ==> Fits(r.value.mask, r.value.clip) && r.value.clip.NonEmpty()
    ensures r.Some? ==> 0 <= r.value.clip.fx1 && r.value.clip.fx2 <= width && 0 <= r.value.clip.fy1 && r.value.clip.fy2 <= height
    ensures r.Some? ==> r.value.mask == warp(landmarks[0], landmarks[1])
    ensures r.None? <==> !Overlaps(PlaceMask(landmarks, warp), width, height)
  {
    var m := warp(landmarks[0], landmarks[1]);
    var c := ClipToFrame(PlaceMask(landmarks, warp), width, height);
    if c.NonEmpty() then Some(Plan(m, c)) else None
  }

  /** Blending one frame array in place according to a plan, or leaving it
      alone when there is none. */
  method ApplyPlan(frame: array2<Bgr>, plan: Option<Plan>)
    requires plan.Some? ==> Fits(plan.value.mask, plan.value.clip) && plan.value.clip.NonEmpty()
    requires plan.Some? ==>
      0 <= plan.value.clip.fy1 && plan.value.clip.fy2 <= frame.Length0 && 0 <= plan.value.clip.fx1 && plan.value.clip.fx2 <= frame.Length1
    modifies frame
    ensures plan.None? ==> Snapshot(frame) == old(Snapshot(frame))
    ensures plan.Some? ==> Snapshot(frame) == CompositeFrame(old(Snapshot(frame)), plan.value.mask, plan.value.clip)
  {
    ghost var before := Snapshot(frame);
    if plan.Some? {
      BlendRegion(frame, plan.value.mask, plan.value.clip);
      SameFrame(Snapshot(frame), CompositeFrame(before, plan.value.mask, plan.value.clip), frame.Length0, frame.Length1);
    }
  }
}
