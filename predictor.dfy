/** faceLandmarkPredictor.py: choosing one face among the detector's boxes
    and turning the landmark model's crop-relative output into frame
    coordinates. The Haar detector, the crop/resize and the network itself
    are outside the model: the detector's boxes and the network's output
    arrive as inputs. */
module LandmarkPredictor {
  import opened Common
  import opened Face

  /** `face_score`: distance from the box centre to the image centre
      `(W // 2, H // 2)`, minus one hundredth of the box area. `norm` is the
      Euclidean length of an offset (`np.sqrt(dx**2 + dy**2)`). */
  function Score(f: Box, imgW: nat, imgH: nat, norm: (real, real) -> real): real
  {
    var cx := f.x as real + f.w as real / 2.0;
    var cy := f.y as real + f.h as real / 2.0;
    norm(cx - (imgW / 2) as real, cy - (imgH / 2) as real) - 0.01 * f.w as real * f.h as real
  }

  /** `min(faces, key=face_score)`: the position of the face `min` returns.
      Python's `min` scans left to right and replaces its candidate only on a
      strictly smaller key, so the first of several equal minima wins. */
  function SelectFaceIndex(faces: seq<Box>, imgW: nat, imgH: nat, norm: (real, real) -> real): (k: nat)
    requires |faces| > 0
    ensures k < |faces|
    ensures forall j :: 0 <= j < |faces| ==> Score(faces[k], imgW, imgH, norm) <= Score(faces[j], imgW, imgH, norm)
    ensures forall j :: 0 <= j < k ==> Score(faces[j], imgW, imgH, norm) > Score(faces[k], imgW, imgH, norm)
    decreases |faces|
  {
    if |faces| == 1 then 0
    else
      var k := SelectFaceIndex(faces[..|faces| - 1], imgW, imgH, norm);
      if Score(faces[|faces| - 1], imgW, imgH, norm) < Score(faces[k], imgW, imgH, norm) then |faces| - 1 else k
  }

  /** `select_face`: the chosen box itself. */
  function SelectFace(faces: seq<Box>, imgW: nat, imgH: nat, norm: (real, real) -> real): (f: Box)
    requires |faces| > 0
    ensures f in faces
    ensures forall g :: g in faces ==> Score(f, imgW, imgH, norm) <= Score(g, imgW, imgH, norm)
  {
    faces[SelectFaceIndex(faces, imgW, imgH, norm)]
  }

  /** The offset from a box centre to the image centre, the argument of `norm`. */
  function CentreOffset(f: Box, imgW: nat, imgH: nat): (real, real)
  {
    (f.x as real + f.w as real / 2.0 - (imgW / 2) as real, f.y as real + f.h as real / 2.0 - (imgH / 2) as real)
  }

  /** Of two faces with the same area, the one whose centre is strictly
      closer to the image centre is never the one chosen over the other. */
  lemma {:induction false} EqualAreaCloserWins(faces: seq<Box>, imgW: nat, imgH: nat, norm: (real, real) -> real, a: nat, b: nat)
    requires a < |faces| && b < |faces|
    requires faces[a].w * faces[a].h == faces[b].w * faces[b].h
    requires norm(CentreOffset(faces[a], imgW, imgH).0, CentreOffset(faces[a], imgW, imgH).1)
           < norm(CentreOffset(faces[b], imgW, imgH).0, CentreOffset(faces[b], imgW, imgH).1)
    ensures SelectFaceIndex(faces, imgW, imgH, norm) != b
  {
    var fa, fb := faces[a], faces[b];
    assert 0.01 * fa.w as real * fa.h as real == 0.01 * (fa.w * fa.h) as real;
    assert 0.01 * fb.w as real * fb.h as real == 0.01 * (fb.w * fb.h) as real;
    assert Score(fa, imgW, imgH, norm) < Score(fb, imgW, imgH, norm);
  }

  /** A landmark as the network reports it, relative to the crop (0 to 1
      across the crop), scaled back into the frame: `p * (w, h) + (x, y)`. */
  function ToFrame(p: Point, box: Box): Point
  {
    Point(p.x * box.w as real + box.x as real, p.y * box.h as real + box.y as real)
  }

  /** A landmark the network places inside its crop lands inside the box in
      the frame. */
  lemma ToFrameInsideBox(p: Point, box: Box)
    requires box.Valid()
    requires 0.0 <= p.x <= 1.0 && 0.0 <= p.y <= 1.0
    ensures box.x as real <= ToFrame(p, box).x <= box.X2() as real
    ensures box.y as real <= ToFrame(p, box).y <= box.Y2() as real
  {
    ScaleWithin(p.x, box.w as real);
    ScaleWithin(p.y, box.h as real);
  }

  /** Rescaling is invertible on a box with a positive size: dividing the
      frame offset by the box size recovers the network's output. */
  lemma ToFrameInvertible(p: Point, box: Box)
    requires box.Valid()
    ensures (ToFrame(p, box).x - box.x as real) / box.w as real == p.x
    ensures (ToFrame(p, box).y - box.y as real) / box.h as real == p.y
  {
  }

  /** What `predict` returns: `(None, None)` when no face was detected, or the
      rescaled landmarks and the chosen box. */
  datatype Prediction = NoFace | Found(landmarks: seq<Point>, box: Box)

  /** The first half of the rescale, `output *= [w, h]`. */
  function Scaled(p: Point, box: Box): Point
  {
    Point(p.x * box.w as real, p.y * box.h as real)
  }

  /** `output *= [w, h]` followed by `output += [x, y]` on the network's
      output array. */
  method RescaleInPlace(output: array<Point>, box: Box)
    modifies output
    ensures forall j :: 0 <= j < output.Length ==> output[j] == ToFrame(old(output[j]), box)
  {
    ghost var raw := output[..];
    for i := 0 to output.Length
      invariant forall j :: 0 <= j < i ==> output[j] == Scaled(raw[j], box)
      invariant forall j :: i <= j < output.Length ==> output[j] == raw[j]
    {
      output[i] := Scaled(output[i], box);
    }
    for i := 0 to output.Length
      invariant forall j :: 0 <= j < i ==> output[j] == ToFrame(raw[j], box)
      invariant forall j :: i <= j < output.Length ==> output[j] == Scaled(raw[j], box)
    {
      output[i] := Point(output[i].x + box.x as real, output[i].y + box.y as real);
    }
  }

  /** `predict`. `faces` is what the detector found in the grey frame;
      `estimate` is the network applied to the crop of a box, giving points
      relative to that crop. */
  method Predict(faces: seq<Box>, imgW: nat, imgH: nat, norm: (real, real) -> real,
                 estimate: Box -> seq<Point>)
    returns (r: Prediction)
    ensures r.NoFace? <==> |faces| == 0
    ensures r.Found? ==> r.box == SelectFace(faces, imgW, imgH, norm)
    ensures r.Found? ==> |r.landmarks| == |estimate(r.box)|
    ensures r.Found? ==> forall i :: 0 <= i < |r.landmarks| ==>
      r.landmarks[i] == ToFrame(estimate(r.box)[i], r.box)
  {
    if |faces| == 0 {
      return NoFace;
    }
    var box := SelectFace(faces, imgW, imgH, norm);
    var raw := estimate(box);
    var output := new Point[|raw|](i requires 0 <= i < |raw| => raw[i]);
    RescaleInPlace(output, box);
    r := Found(output[..], box);
  }
}
