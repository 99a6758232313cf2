/** evaluate.py: reading the CelebA landmark list, pairing ground truth with
    predictions for the image files of a folder, counting detection failures
    and the failure rate at a threshold. The file system arrives as
    parameters: the lines of the landmark list, a predicate telling which
    file names exist in the faces folder, and the folder listing. The NME of
    one sample (float norms) is a parameter too; `None` stands for NaN. */
module Evaluate {
  import opened Common
  import opened Text

  /** An annotated landmark in integer pixel coordinates. */
  datatype Pixel = Pixel(x: int, y: int)

  /** The exceptions the parser lets escape. */
  datatype ParseError = IndexError | ValueError

  // ---------------------------------------------------------------------
  // Parsing one line
  // ---------------------------------------------------------------------

  /** `list(map(int, tokens))`: all tokens as integers, or nothing when one
      of them is not an integer. */
  function ParseInts(tokens: seq<string>): (r: Option<seq<int>>)
    ensures r.Some? <==> forall k :: 0 <= k < |tokens| ==> ParseInt(tokens[k]).Some?
    ensures r.Some? ==> |r.value| == |tokens|
    ensures r.Some? ==> forall k :: 0 <= k < |tokens| ==> r.value[k] == ParseInt(tokens[k]).value
  {
    if |tokens| == 0 then Some([])
    else match (ParseInt(tokens[0]), ParseInts(tokens[1..]))
      case (Some(v), Some(vs)) =>
        assert forall k :: 1 <= k < |tokens| ==> tokens[k] == tokens[1..][k - 1];
        Some([v] + vs)
      case _ =>
        assert forall k :: 1 <= k < |tokens| ==> tokens[k] == tokens[1..][k - 1];
        None
  }

  /** `parts = line.strip().split()`, `parts[0]` and the integers after it.
      A blank line has no `parts[0]` (IndexError); a token that is not an
      integer fails the conversion (ValueError), whether or not the file
      exists, because the conversion comes first. */
  function ParseLine(line: string): (r: Result<(string, seq<int>), ParseError>)
    ensures r == Failure(IndexError) <==> |Words(line)| == 0
    ensures r.Success? <==> |Words(line)| > 0 && forall k :: 1 <= k < |Words(line)| ==> ParseInt(Words(line)[k]).Some?
    ensures r.Success? ==> r.value.0 == Words(line)[0] && |r.value.1| == |Words(line)| - 1
    ensures r.Success? ==> forall k :: 0 <= k < |r.value.1| ==> Some(r.value.1[k]) == ParseInt(Words(line)[k + 1])
  {
    var parts := Words(line);
    if |parts| == 0 then Failure(IndexError)
    else
      assert forall k :: 1 <= k < |parts| ==> parts[k] == parts[1..][k - 1];
      match ParseInts(parts[1..])
      case None => Failure(ValueError)
      case Some(coords) => Success((parts[0], coords))
  }

  /** The five `[x, y]` pairs from the first ten integers; any further
      integers on the line are ignored. */
  function Entry(coords: seq<int>): (e: seq<Pixel>)
    requires |coords| >= 10
    ensures |e| == 5
    ensures forall k :: 0 <= k < 5 ==> e[k] == Pixel(coords[2 * k], coords[2 * k + 1])
  {
    [Pixel(coords[0], coords[1]), Pixel(coords[2], coords[3]), Pixel(coords[4], coords[5]),
     Pixel(coords[6], coords[7]), Pixel(coords[8], coords[9])]
  }

  /** The loop body on one line, given the dictionary so far. */
  function Step(m: map<string, seq<Pixel>>, line: string, onDisk: string -> bool): Result<map<string, seq<Pixel>>, ParseError>
  {
    match ParseLine(line)
    case Failure(e) => Failure(e)
    case Success((name, coords)) =>
      if !onDisk(name) then Success(m)
      else if |coords| < 10 then Failure(IndexError)
      else Success(m[name := Entry(coords)])
  }

  /** A line the loop body gets through. */
  predicate LineOk(line: string, onDisk: string -> bool)
  {
    ParseLine(line).Success? && (onDisk(ParseLine(line).value.0) ==> |ParseLine(line).value.1| >= 10)
  }

  /** Line `line` names `name` as its file. */
  predicate Names(line: string, name: string)
  {
    |Words(line)| > 0 && Words(line)[0] == name
  }

  // ---------------------------------------------------------------------
  // The whole file
  // ---------------------------------------------------------------------

  /** The dictionary after the loop has run over `body`, or the first
      exception raised. */
  function FoldLines(body: seq<string>, onDisk: string -> bool): Result<map<string, seq<Pixel>>, ParseError>
  {
    if |body| == 0 then Success(map[])
    else match FoldLines(body[..|body| - 1], onDisk)
      case Failure(e) => Failure(e)
      case Success(m) => Step(m, body[|body| - 1], onDisk)
  }

  /** `lines[2:]`: the header line and the sample count are skipped. */
  function Body(lines: seq<string>): (body: seq<string>)
    ensures |lines| >= 2 ==> lines == lines[..2] + body
    ensures |lines| < 2 ==> body == []
  {
    if |lines| < 2 then [] else lines[2..]
  }

  /** `parse_celeba_landmarks` on the lines of the file. */
  function Parsed(lines: seq<string>, onDisk: string -> bool): Result<map<string, seq<Pixel>>, ParseError>
  {
    FoldLines(Body(lines), onDisk)
  }

  /** Whether the loop body gets through a line does not depend on the
      dictionary built so far. */
  lemma StepSucceedsIff(m: map<string, seq<Pixel>>, line: string, onDisk: string -> bool)
    ensures Step(m, line, onDisk).Success? <==> LineOk(line, onDisk)
  {
  }

  /** The parse succeeds exactly when every line after the header gets
      through the loop body. */
  lemma {:induction false} FoldSucceedsIff(body: seq<string>, onDisk: string -> bool)
    ensures FoldLines(body, onDisk).Success? <==> forall j :: 0 <= j < |body| ==> LineOk(body[j], onDisk)
  {
    if |body| > 0 {
      var init, last := body[..|body| - 1], body[|body| - 1];
      FoldSucceedsIff(init, onDisk);
      var prev := FoldLines(init, onDisk);
      if prev.Success? {
        StepSucceedsIff(prev.value, last, onDisk);
        if FoldLines(body, onDisk).Success? {
          forall j | 0 <= j < |body| ensures LineOk(body[j], onDisk) {
            if j < |init| {
              assert body[j] == init[j];
            }
          }
        }
      } else {
        assert forall j :: 0 <= j < |init| ==> init[j] == body[j];
      }
    }
  }

  /** On success the keys are exactly the existing files named by some line. */
  lemma {:induction false} FoldKeys(body: seq<string>, onDisk: string -> bool, name: string)
    requires FoldLines(body, onDisk).Success?
    ensures name in FoldLines(body, onDisk).value <==>
      onDisk(name) && exists j :: 0 <= j < |body| && Names(body[j], name)
  {
    if |body| > 0 {
      var init := body[..|body| - 1];
      FoldKeys(init, onDisk, name);
      assert forall j :: 0 <= j < |init| ==> init[j] == body[j];
      if onDisk(name) && Names(body[|body| - 1], name) {
        assert ParseLine(body[|body| - 1]).value.0 == name;
      }
    }
  }

  /** On success the entry of a file comes from the last line naming it: a
      later line with the same name overwrites an earlier one. */
  lemma {:induction false} LastLineWins(body: seq<string>, onDisk: string -> bool, name: string, j: nat)
    requires FoldLines(body, onDisk).Success?
    requires j < |body| && Names(body[j], name) && onDisk(name)
    requires forall k :: j < k < |body| ==> !Names(body[k], name)
    ensures ParseLine(body[j]).Success? && |ParseLine(body[j]).value.1| >= 10
    ensures name in FoldLines(body, onDisk).value
    ensures FoldLines(body, onDisk).value[name] == Entry(ParseLine(body[j]).value.1)
  {
    var init := body[..|body| - 1];
    var last := body[|body| - 1];
    assert forall k :: 0 <= k < |init| ==> init[k] == body[k];
    if j == |body| - 1 {
      assert ParseLine(last).value.0 == name;
    } else {
      LastLineWins(init, onDisk, name, j);
      assert !Names(last, name);
    }
  }

  /** Whatever the first two lines hold, they never reach the parser. */
  lemma HeaderNeverParsed(a: string, b: string, body: seq<string>, onDisk: string -> bool)
    ensures Parsed([a, b] + body, onDisk) == FoldLines(body, onDisk)
  {
    assert ([a, b] + body)[2..] == body;
  }

  /** `parse_celeba_landmarks`: the loop over `lines[2:]` filling the
      dictionary, stopping at the first exception. */
  method ParseLandmarkFile(lines: seq<string>, onDisk: string -> bool)
    returns (r: Result<map<string, seq<Pixel>>, ParseError>)
    ensures r == Parsed(lines, onDisk)
  {
    var body := Body(lines);
    var m: map<string, seq<Pixel>> := map[];
    for n := 0 to |body|
      invariant FoldLines(body[..n], onDisk) == Success(m)
    {
      assert body[..n + 1][..n] == body[..n];
      var step := Step(m, body[n], onDisk);
      if step.Failure? {
        assert FoldLines(body[..n + 1], onDisk) == step;
        FailureSticks(body, onDisk, n + 1);
        return step;
      }
      m := step.value;
    }
    assert body[..|body|] == body;
    r := Success(m);
  }

  /** An exception raised at some line is the result of the whole parse. */
  lemma {:induction false} FailureSticks(body: seq<string>, onDisk: string -> bool, n: nat)
    requires n <= |body|
    requires FoldLines(body[..n], onDisk).Failure?
    ensures FoldLines(body, onDisk) == FoldLines(body[..n], onDisk)
    decreases |body| - n
  {
    if n < |body| {
      assert body[..n + 1][..n] == body[..n];
      FailureSticks(body, onDisk, n + 1);
    } else {
      assert body[..n] == body;
    }
  }

  // ---------------------------------------------------------------------
  // Pairing and counting
  // ---------------------------------------------------------------------

  /** One evaluation sample: the annotated landmarks and the prediction. */
  datatype Sample = Sample(gt: seq<Pixel>, pred: Option<seq<Point>>)

  /** `pred is None or len(pred) == 0`. */
  predicate DetectionFailed(s: Sample)
  {
    s.pred.None? || |s.pred.value| == 0
  }

  /** Every file before position `k` has an annotation. */
  predicate FirstMissing(files: seq<string>, gts: map<string, seq<Pixel>>, k: nat)
  {
    forall i :: 0 <= i < k && i < |files| ==> files[i] in gts
  }

  /** `get_gt_pred_pair`: one sample per `.jpg`/`.png` file in sorted order,
      with its annotation looked up by name; a file without an annotation
      raises KeyError (carrying its name) at that file. */
  method GtPredPairs(listing: seq<string>, gts: map<string, seq<Pixel>>, predict: string -> Option<seq<Point>>)
    returns (r: Result<seq<Sample>, string>)
    ensures var files := ImageFiles(listing, [".jpg", ".png"]);
      r.Success? <==> forall k :: 0 <= k < |files| ==> files[k] in gts
    ensures var files := ImageFiles(listing, [".jpg", ".png"]);
      r.Success? ==> (|r.value| == |files|
        && forall k :: 0 <= k < |files| ==> r.value[k] == Sample(gts[files[k]], predict(files[k])))
    ensures var files := ImageFiles(listing, [".jpg", ".png"]);
      r.Failure? ==> exists k :: 0 <= k < |files| && files[k] == r.error && files[k] !in gts && FirstMissing(files, gts, k)
  {
    var files := ImageFiles(listing, [".jpg", ".png"]);
    var pairs: seq<Sample> := [];
    for k := 0 to |files|
      invariant |pairs| == k
      invariant forall i :: 0 <= i < k ==> files[i] in gts && pairs[i] == Sample(gts[files[i]], predict(files[i]))
    {
      if files[k] !in gts {
        return Failure(files[k]);
      }
      pairs := pairs + [Sample(gts[files[k]], predict(files[k]))];
    }
    r := Success(pairs);
  }

  /** The number of samples whose detection failed. */
  function CountFailures(samples: seq<Sample>): (n: nat)
    ensures n <= |samples|
  {
    if |samples| == 0 then 0
    else (if DetectionFailed(samples[0]) then 1 else 0) + CountFailures(samples[1..])
  }

  /** No failures are counted exactly when every detection succeeded, and
      every sample is counted exactly when every detection failed. */
  lemma {:induction false} CountFailuresExtremes(samples: seq<Sample>)
    ensures CountFailures(samples) == 0 <==> forall k :: 0 <= k < |samples| ==> !DetectionFailed(samples[k])
    ensures CountFailures(samples) == |samples| <==> forall k :: 0 <= k < |samples| ==> DetectionFailed(samples[k])
  {
    if |samples| > 0 {
      CountFailuresExtremes(samples[1..]);
      assert forall k :: 1 <= k < |samples| ==> samples[k] == samples[1..][k - 1];
    }
  }

  /** The NME recorded for one sample: NaN for a failed detection. */
  function NmeOf(s: Sample, nme: (seq<Pixel>, seq<Point>) -> Option<real>): Option<real>
  {
    if DetectionFailed(s) then None else nme(s.gt, s.pred.value)
  }

  /** How many entries are NaN. */
  function NoneCount(nmes: seq<Option<real>>): (n: nat)
    ensures n <= |nmes|
  {
    if |nmes| == 0 then 0 else (if nmes[0].None? then 1 else 0) + NoneCount(nmes[1..])
  }

  /** `nmes[~np.isnan(nmes)]`: the entries that are not NaN, one per such
      entry. */
  function ValidNmes(nmes: seq<Option<real>>): (v: seq<real>)
    ensures |v| == |nmes| - NoneCount(nmes)
  {
    if |nmes| == 0 then []
    else
      var rest := ValidNmes(nmes[1..]);
      if nmes[0].Some? then [nmes[0].value] + rest else rest
  }

  /** The valid NMEs are exactly the numbers among the entries. */
  lemma {:induction false} ValidNmesMembers(nmes: seq<Option<real>>)
    ensures forall x :: x in ValidNmes(nmes) <==> Some(x) in nmes
  {
    if |nmes| > 0 {
      ValidNmesMembers(nmes[1..]);
      assert nmes == [nmes[0]] + nmes[1..];
    }
  }

  /** The mask keeps order: filtering a concatenation filters each part,
      a number is kept and a NaN is dropped. */
  lemma {:induction false} ValidNmesAppend(a: seq<Option<real>>, b: seq<Option<real>>)
    ensures ValidNmes(a + b) == ValidNmes(a) + ValidNmes(b)
  {
    if |a| > 0 {
      assert (a + b)[0] == a[0] && (a + b)[1..] == a[1..] + b;
      ValidNmesAppend(a[1..], b);
    } else {
      assert a + b == b;
    }
  }

  lemma ValidNmesSingle(x: real)
    ensures ValidNmes([Some(x)]) == [x]
    ensures ValidNmes([None]) == []
  {
  }

  /** Every failed detection is a NaN that the valid NMEs leave out. */
  lemma {:induction false} ValidPlusFailuresAtMostAll(samples: seq<Sample>, nmes: seq<Option<real>>,
                                                      nme: (seq<Pixel>, seq<Point>) -> Option<real>)
    requires |nmes| == |samples|
    requires forall k :: 0 <= k < |samples| ==> nmes[k] == NmeOf(samples[k], nme)
    ensures |ValidNmes(nmes)| + CountFailures(samples) <= |samples|
  {
    if |samples| > 0 {
      assert forall k :: 0 <= k < |samples| - 1 ==> nmes[1..][k] == nmes[k + 1] && samples[1..][k] == samples[k + 1];
      ValidPlusFailuresAtMostAll(samples[1..], nmes[1..], nme);
    }
  }

  /** What `evaluate_model` computes before printing: one NME per sample
      (NaN for a failed detection) and the failure count. */
  method EvaluateModel(samples: seq<Sample>, nme: (seq<Pixel>, seq<Point>) -> Option<real>)
    returns (nmes: seq<Option<real>>, failures: nat)
    ensures |nmes| == |samples|
    ensures forall k :: 0 <= k < |samples| ==> nmes[k] == NmeOf(samples[k], nme)
    ensures failures == CountFailures(samples)
  {
    nmes, failures := [], 0;
    for k := 0 to |samples|
      invariant |nmes| == k
      invariant forall i :: 0 <= i < k ==> nmes[i] == NmeOf(samples[i], nme)
      invariant failures + CountFailures(samples[k..]) == CountFailures(samples)
    {
      assert samples[k..][1..] == samples[k + 1..];
      if DetectionFailed(samples[k]) {
        nmes := nmes + [None];
        failures := failures + 1;
      } else {
        nmes := nmes + [nme(samples[k].gt, samples[k].pred.value)];
      }
    }
  }

  // ---------------------------------------------------------------------
  // Failure rate
  // ---------------------------------------------------------------------

  /** How many values exceed the threshold. */
  function CountAbove(values: seq<real>, threshold: real): (n: nat)
    ensures n <= |values|
    ensures n == 0 <==> forall k :: 0 <= k < |values| ==> values[k] <= threshold
    ensures n == |values| <==> forall k :: 0 <= k < |values| ==> values[k] > threshold
  {
    if |values| == 0 then 0
    else
      var rest := CountAbove(values[1..], threshold);
      assert forall k :: 1 <= k < |values| ==> values[k] == values[1..][k - 1];
      (if values[0] > threshold then 1 else 0) + rest
  }

  /** A higher threshold never counts more values. */
  lemma {:induction false} CountAboveMonotone(values: seq<real>, t1: real, t2: real)
    requires t1 <= t2
    ensures CountAbove(values, t2) <= CountAbove(values, t1)
  {
    if |values| > 0 {
      CountAboveMonotone(values[1..], t1, t2);
    }
  }

  /** `(nmes > threshold).mean()`: the fraction of values strictly above the
      threshold; the mean of nothing is NaN, `None` here. */
  function FailureRate(values: seq<real>, threshold: real): (r: Option<real>)
    ensures r.None? <==> |values| == 0
    ensures r.Some? ==> 0.0 <= r.value <= 1.0
  {
    if |values| == 0 then None
    else
      var n := CountAbove(values, threshold);
      RatioBounds(n as real, |values| as real, |values| as real);
      Some(n as real / |values| as real)
  }

  /** The rate is zero exactly when no value exceeds the threshold, and one
      exactly when every value does. */
  lemma FailureRateExtremes(values: seq<real>, threshold: real)
    requires |values| > 0
    ensures FailureRate(values, threshold).value == 0.0 <==> forall k :: 0 <= k < |values| ==> values[k] <= threshold
    ensures FailureRate(values, threshold).value == 1.0 <==> forall k :: 0 <= k < |values| ==> values[k] > threshold
  {
    var n := CountAbove(values, threshold);
    RatioBounds(n as real, |values| as real, |values| as real);
  }

  /** Raising the threshold never raises the failure rate. */
  lemma FailureRateMonotone(values: seq<real>, t1: real, t2: real)
    requires |values| > 0 && t1 <= t2
    ensures FailureRate(values, t2).value <= FailureRate(values, t1).value
  {
    CountAboveMonotone(values, t1, t2);
    RatioBounds(CountAbove(values, t2) as real, CountAbove(values, t1) as real, |values| as real);
  }
}
