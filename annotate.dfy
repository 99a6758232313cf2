/** landmarks_detection.py: the manual annotation tool. For each image file
    of the folder, in sorted order, the user clicks the five landmarks and
    confirms with Enter; `r` clears the clicks and Esc or `q` saves what has
    been collected and quits. The window system arrives as a stream of
    events: mouse callbacks and the key codes `cv2.waitKey(10) & 0xFF`
    returns; drawing the points and writing the JSON file are left out, and
    a save is recorded as the dictionary it writes. */
module Annotation {
  import opened Common
  import opened Text

  /** The landmarks asked for, in order. */
  const TargetPoints: seq<string> := ["left_eye", "right_eye", "nose", "mouth_left", "mouth_right"]

  /** `cv2.EVENT_LBUTTONDOWN`. */
  const LeftButtonDown := 1

  /** Enter, `ord('r')`, Esc and `ord('q')`. */
  const KeyEnter := 13
  const KeyReset := 114
  const KeyEsc := 27
  const KeyQuit := 113

  /** The file suffixes the tool visits. */
  const ImageSuffixes: seq<string> := [".jpg", ".png", ".jpeg"]

  /** A clicked point in window pixel coordinates. */
  datatype Click = Click(x: int, y: int)

  /** What the key loop does with a key code. */
  datatype KeyAction = Commit | Reset | Exit | Stay

  /** The `if`/`elif` chain on a key, given how many points are clicked. */
  function KeyDispatch(key: int, clicked: nat): (a: KeyAction)
    ensures a == Commit <==> key == KeyEnter && clicked == |TargetPoints|
    ensures a == Reset <==> key == KeyReset
    ensures a == Exit <==> key == KeyEsc || key == KeyQuit
    ensures a == Stay <==> key !in {KeyReset, KeyEsc, KeyQuit} && (key != KeyEnter || clicked != |TargetPoints|)
  {
    if key == KeyEnter && clicked == |TargetPoints| then Commit
    else if key == KeyReset then Reset
    else if key == KeyEsc || key == KeyQuit then Exit
    else Stay
  }

  /** Enter with fewer or more than five points does nothing at all. */
  lemma EnterNeedsAllPoints(clicked: nat)
    requires clicked != 5
    ensures KeyDispatch(KeyEnter, clicked) == Stay
  {
  }

  /** The tool's global state. `saved` is the dictionary the last call of
      `save_annotations` wrote, if any. */
  class Session {
    var currentPoints: seq<Click>
    var annotations: map<string, seq<Click>>
    var currentFilename: Option<string>
    var counter: nat
    var saved: Option<map<string, seq<Click>>>

    /** Never more than five points pending, one commit per annotated file,
        and five points in every annotation. */
    predicate Valid()
      reads this
    {
      |currentPoints| <= |TargetPoints|
      && counter == |annotations|
      && forall f :: f in annotations ==> |annotations[f]| == |TargetPoints|
    }

    constructor ()
      ensures Valid()
      ensures currentPoints == [] && annotations == map[] && currentFilename == None
      ensures counter == 0 && saved == None
    {
      currentPoints := [];
      annotations := map[];
      currentFilename := None;
      counter := 0;
      saved := None;
    }

    /** `mouse_callback`: a left-button press adds a point while fewer than
        five are clicked; every other event, and a sixth click, is ignored. */
    method MouseCallback(event: int, x: int, y: int)
      requires Valid()
      modifies this
      ensures Valid()
      ensures event == LeftButtonDown && |old(currentPoints)| < |TargetPoints| ==>
        currentPoints == old(currentPoints) + [Click(x, y)]
      ensures !(event == LeftButtonDown && |old(currentPoints)| < |TargetPoints|) ==>
        currentPoints == old(currentPoints)
      ensures annotations == old(annotations) && counter == old(counter)
      ensures currentFilename == old(currentFilename) && saved == old(saved)
    {
      if event == LeftButtonDown {
        if |currentPoints| < |TargetPoints| {
          currentPoints := currentPoints + [Click(x, y)];
        }
      }
    }

    /** The top of the per-file loop: the file becomes current and its
        points start empty. */
    method BeginImage(fname: string)
      requires Valid()
      modifies this
      ensures Valid()
      ensures currentFilename == Some(fname) && currentPoints == []
      ensures annotations == old(annotations) && counter == old(counter) && saved == old(saved)
    {
      currentFilename := Some(fname);
      currentPoints := [];
    }

    /** `save_annotations`. */
    method SaveAnnotations()
      modifies this
      ensures saved == Some(annotations)
      ensures currentPoints == old(currentPoints) && annotations == old(annotations)
      ensures currentFilename == old(currentFilename) && counter == old(counter)
    {
      saved := Some(annotations);
    }

    /** One key read by the key loop while `fname` is shown. */
    method HandleKey(fname: string, key: int) returns (action: KeyAction)
      requires Valid()
      requires fname !in annotations
      modifies this
      ensures Valid()
      ensures action == KeyDispatch(key, |old(currentPoints)|)
      ensures action == Commit ==>
        (annotations == old(annotations)[fname := old(currentPoints)] && counter == old(counter) + 1
         && currentPoints == old(currentPoints) && saved == old(saved))
      ensures action == Reset ==>
        (currentPoints == [] && annotations == old(annotations) && counter == old(counter) && saved == old(saved))
      ensures action == Exit ==>
        (saved == Some(old(annotations)) && annotations == old(annotations) && currentPoints == old(currentPoints) && counter == old(counter))
      ensures action == Stay ==>
        (currentPoints == old(currentPoints) && annotations == old(annotations) && counter == old(counter) && saved == old(saved))
      ensures currentFilename == old(currentFilename)
    {
      action := KeyDispatch(key, |currentPoints|);
      match action {
        case Commit =>
          counter := counter + 1;
          annotations := annotations[fname := currentPoints];
        case Reset =>
          currentPoints := [];
        case Exit =>
          SaveAnnotations();
        case Stay =>
      }
    }
  }

  /** An input event: a mouse callback, or the key code one pass of the key
      loop reads. */
  datatype Event = Mouse(kind: int, x: int, y: int) | Key(code: int)

  /** The pending points after one event of the key loop that does not end
      it: a left click adds a point while fewer than five are clicked, `r`
      clears them, and every other event leaves them. */
  function AfterEvent(pts: seq<Click>, ev: Event): seq<Click>
  {
    match ev
    case Mouse(kind, x, y) =>
      if kind == LeftButtonDown && |pts| < |TargetPoints| then pts + [Click(x, y)] else pts
    case Key(code) => if code == KeyReset then [] else pts
  }

  /** The pending points after a run of events, starting from `pts`. */
  function Clicked(pts: seq<Click>, evs: seq<Event>): (r: seq<Click>)
    ensures |pts| <= |TargetPoints| ==> |r| <= |TargetPoints|
  {
    if |evs| == 0 then pts else AfterEvent(Clicked(pts, evs[..|evs| - 1]), evs[|evs| - 1])
  }

  /** The points are exactly the clicks since the last `r` (or since the
      image was shown), the first five of them. */
  lemma {:induction false} ClickedAfterReset(pts: seq<Click>, evs: seq<Event>, x: int, y: int)
    ensures Clicked(pts, evs + [Key(KeyReset)]) == []
    ensures |Clicked(pts, evs)| < |TargetPoints| ==>
      Clicked(pts, evs + [Mouse(LeftButtonDown, x, y)]) == Clicked(pts, evs) + [Click(x, y)]
  {
    assert (evs + [Key(KeyReset)])[..|evs|] == evs;
    assert (evs + [Mouse(LeftButtonDown, x, y)])[..|evs|] == evs;
  }

  /** Consuming one more event of a run. */
  lemma ClickedStep(pts: seq<Click>, events: seq<Event>, start: nat, next: nat)
    requires start <= next < |events|
    ensures Clicked(pts, events[start..next + 1]) == AfterEvent(Clicked(pts, events[start..next]), events[next])
  {
    assert events[start..next + 1][..next - start] == events[start..next];
  }

  /** How a run ends: every file annotated and saved, Esc/`q` (saved and
      quit), or the events ran out while a file was still open. */
  datatype RunEnd = Finished | Exited | Waiting

  /** The files `sorted(...)` hands the loop. */
  function ImagesToVisit(listing: seq<string>): (files: seq<string>)
    ensures Sorted(files)
    ensures forall f :: f in files <==> f in listing && EndsWithAny(f, ImageSuffixes)
    ensures Distinct(listing) ==> Distinct(files)
  {
    ImageFiles(listing, ImageSuffixes)
  }

  /** Whether an event ends the key loop for one image, given the points
      pending before it: Enter with five points, Esc or `q`. */
  predicate Stops(pts: seq<Click>, ev: Event)
  {
    ev.Key? && (KeyDispatch(ev.code, |pts|) == Commit || KeyDispatch(ev.code, |pts|) == Exit)
  }

  /** No event of `events[start..hi]` ends a key loop that started at
      `start` with `pts` pending. */
  predicate NoStopBetween(pts: seq<Click>, events: seq<Event>, start: nat, hi: nat)
    requires start <= hi <= |events|
  {
    forall j :: start <= j < hi ==> !StopsAt(pts, events, start, j)
  }

  /** Event `j` stops a key loop that started at `start` with `pts`
      pending. */
  predicate StopsAt(pts: seq<Click>, events: seq<Event>, start: nat, j: nat)
    requires start <= j < |events|
  {
    Stops(Clicked(pts, events[start..j]), events[j])
  }

  /** A key loop that starts at `start` with `pts` pending consumes
      `events[start..next]` and ends with `action`: a commit or an exit on
      the first event that stops it, or `Stay` when the events run out
      before any does. */
  predicate LoopEnds(pts: seq<Click>, events: seq<Event>, start: nat, next: nat, action: KeyAction)
    requires start <= next <= |events|
  {
    if action == Stay then next == |events| && NoStopBetween(pts, events, start, next)
    else
      (action == Commit || action == Exit) && start < next
      && events[next - 1].Key? && KeyDispatch(events[next - 1].code, |Clicked(pts, events[start..next - 1])|) == action
      && NoStopBetween(pts, events, start, next - 1)
  }

  /** The end of a key loop is determined by the events: two ends of the
      same loop are the same end. */
  lemma LoopEndsUnique(pts: seq<Click>, events: seq<Event>, start: nat, n1: nat, a1: KeyAction, n2: nat, a2: KeyAction)
    requires start <= n1 <= |events| && start <= n2 <= |events|
    requires LoopEnds(pts, events, start, n1, a1) && LoopEnds(pts, events, start, n2, a2)
    ensures n1 == n2 && a1 == a2
  {
    // A commit or an exit happens on an event that stops the loop, which
    // the other end's run without a stop cannot contain.
    if a1 != Stay {
      assert StopsAt(pts, events, start, n1 - 1);
    }
    if a2 != Stay {
      assert StopsAt(pts, events, start, n2 - 1);
    }
  }

  /** An event that does not stop the loop extends the run without a stop. */
  lemma NoStopStep(pts: seq<Click>, events: seq<Event>, start: nat, next: nat)
    requires start <= next < |events|
    requires NoStopBetween(pts, events, start, next)
    requires !Stops(Clicked(pts, events[start..next]), events[next])
    ensures NoStopBetween(pts, events, start, next + 1)
  {
  }

  /** The first event that stops the loop ends it with its action. */
  lemma StopEndsLoop(pts: seq<Click>, events: seq<Event>, start: nat, next: nat, action: KeyAction)
    requires start <= next < |events|
    requires NoStopBetween(pts, events, start, next)
    requires events[next].Key? && action == KeyDispatch(events[next].code, |Clicked(pts, events[start..next])|)
    requires action == Commit || action == Exit
    ensures LoopEnds(pts, events, start, next + 1, action)
  {
  }

  /** One pass of the key loop: the mouse callback for a mouse event, the
      key chain for a key. */
  method OnEvent(s: Session, fname: string, ev: Event) returns (action: KeyAction)
    requires s.Valid() && fname !in s.annotations
    modifies s
    ensures s.Valid()
    ensures action == (if ev.Key? then KeyDispatch(ev.code, |old(s.currentPoints)|) else Stay)
    ensures action != Commit && action != Exit ==> !Stops(old(s.currentPoints), ev)
    ensures s.currentPoints == AfterEvent(old(s.currentPoints), ev)
    ensures action == Commit ==>
      (s.annotations == old(s.annotations)[fname := old(s.currentPoints)] && s.saved == old(s.saved))
    ensures action == Exit ==> s.saved == Some(s.annotations) && s.annotations == old(s.annotations)
    ensures action != Commit && action != Exit ==> s.annotations == old(s.annotations) && s.saved == old(s.saved)
  {
    match ev {
      case Mouse(kind, x, y) =>
        s.MouseCallback(kind, x, y);
        action := Stay;
      case Key(code) =>
        action := s.HandleKey(fname, code);
    }
  }

  /** The key loop for one image: events are consumed from `start` until
      the first one that stops it, or the end of the stream. A commit stores
      under `fname` exactly the points the events since `start` leave
      pending, five of them, and closes on an Enter key; an exit follows Esc
      or `q` and saves; no other entry changes. */
  method KeyLoop(s: Session, fname: string, events: seq<Event>, start: nat)
    returns (action: KeyAction, next: nat)
    requires s.Valid() && fname !in s.annotations && start <= |events|
    modifies s
    ensures s.Valid()
    ensures start <= next <= |events|
    ensures LoopEnds(old(s.currentPoints), events, start, next, action)
    ensures s.currentPoints == Clicked(old(s.currentPoints), events[start..next])
    ensures action == Commit ==>
      (next > start && events[next - 1] == Key(KeyEnter) && |s.currentPoints| == |TargetPoints|
       && s.annotations == old(s.annotations)[fname := s.currentPoints] && s.saved == old(s.saved))
    ensures action == Exit ==>
      (events[next - 1] == Key(KeyEsc) || events[next - 1] == Key(KeyQuit))
      && s.saved == Some(s.annotations) && s.annotations == old(s.annotations)
    ensures action == Stay ==> s.annotations == old(s.annotations) && s.saved == old(s.saved)
  {
    action, next := Stay, start;
    while next < |events|
      invariant s.Valid() && fname !in s.annotations
      invariant start <= next <= |events|
      invariant s.annotations == old(s.annotations) && s.saved == old(s.saved)
      invariant s.currentPoints == Clicked(old(s.currentPoints), events[start..next])
      invariant NoStopBetween(old(s.currentPoints), events, start, next)
    {
      ClickedStep(old(s.currentPoints), events, start, next);
      var a := OnEvent(s, fname, events[next]);
      if a == Commit || a == Exit {
        StopEndsLoop(old(s.currentPoints), events, start, next, a);
        return a, next + 1;
      }
      NoStopStep(old(s.currentPoints), events, start, next);
      next := next + 1;
    }
  }

  /** The event range `[lo, hi)` of the key loop of one committed image. */
  datatype Span = Span(lo: nat, hi: nat)

  /** Where the events of the next image start: after the last span. */
  function SpansEnd(spans: seq<Span>): nat
  {
    if |spans| == 0 then 0 else spans[|spans| - 1].hi
  }

  /** The committed images are the first `|spans|` files; image `k` was
      committed by the events `spans[k]`, which follow each other from
      event 0. Each span is the whole key loop of its image, closed by the
      first event that stops it, an Enter with five points pending, and the
      image's entry holds exactly those five points. */
  ghost predicate Committed(annotations: map<string, seq<Click>>, files: seq<string>, events: seq<Event>, spans: seq<Span>)
  {
    |spans| <= |files|
    && (forall f :: f in annotations <==> f in files[..|spans|])
    && forall k :: 0 <= k < |spans| ==> CommittedAt(annotations, files, events, spans, k)
  }

  /** Image `k` of a committed record. */
  ghost predicate CommittedAt(annotations: map<string, seq<Click>>, files: seq<string>, events: seq<Event>, spans: seq<Span>, k: nat)
    requires k < |spans| <= |files|
  {
    spans[k].lo < spans[k].hi <= |events|
    && (if k == 0 then spans[k].lo == 0 else spans[k].lo == spans[k - 1].hi)
    && events[spans[k].hi - 1] == Key(KeyEnter)
    && LoopEnds([], events, spans[k].lo, spans[k].hi, Commit)
    && files[k] in annotations
    && annotations[files[k]] == Clicked([], events[spans[k].lo..spans[k].hi])
    && |annotations[files[k]]| == |TargetPoints|
  }

  /** Committing the next file of the list with the events `[lo, hi)`
      extends the record by one span. */
  lemma CommittedExtends(before: map<string, seq<Click>>, after: map<string, seq<Click>>, files: seq<string>,
                         events: seq<Event>, spans: seq<Span>, i: nat, lo: nat, hi: nat)
    requires Distinct(files) && i == |spans| < |files|
    requires Committed(before, files, events, spans)
    requires if i == 0 then lo == 0 else lo == spans[i - 1].hi
    requires lo < hi <= |events| && events[hi - 1] == Key(KeyEnter)
    requires LoopEnds([], events, lo, hi, Commit)
    requires |Clicked([], events[lo..hi])| == |TargetPoints|
    requires after == before[files[i] := Clicked([], events[lo..hi])]
    ensures Committed(after, files, events, spans + [Span(lo, hi)])
  {
    var spans' := spans + [Span(lo, hi)];
    assert files[..i + 1] == files[..i] + [files[i]];
    forall f
      ensures f in after <==> f in files[..i + 1]
    {
    }
    forall k | 0 <= k < i + 1
      ensures CommittedAt(after, files, events, spans', k)
    {
      if k < i {
        assert CommittedAt(before, files, events, spans, k);
        assert files[k] != files[i];
      }
    }
  }

  /** The per-file loop over `files` on a fresh session: each file in turn
      becomes current and gets its key loop, until an exit, the end of the
      events, or the end of the list. `consumed` is how many events were
      read; the image open when the run stops is `files[|spans|]`, whose key
      loop ran from `SpansEnd(spans)` to `consumed`. */
  method VisitFiles(s: Session, files: seq<string>, events: seq<Event>)
    returns (end: RunEnd, ghost spans: seq<Span>, ghost consumed: nat)
    requires Distinct(files)
    requires s.Valid() && s.annotations == map[] && s.saved == None
    modifies s
    ensures s.Valid()
    ensures Committed(s.annotations, files, events, spans)
    ensures SpansEnd(spans) <= consumed <= |events|
    ensures end == Finished <==> |spans| == |files|
    ensures end == Finished ==> consumed == SpansEnd(spans)
    ensures end == Exited ==> LoopEnds([], events, SpansEnd(spans), consumed, Exit)
    ensures end == Waiting ==> LoopEnds([], events, SpansEnd(spans), consumed, Stay)
    ensures end == Exited ==> s.saved == Some(s.annotations)
    ensures end != Exited ==> s.saved == None
  {
    var e := 0;
    spans := [];
    for i := 0 to |files|
      invariant s.Valid()
      invariant |spans| == i
      invariant Committed(s.annotations, files, events, spans)
      invariant s.saved == None
      invariant e <= |events|
      invariant e == SpansEnd(spans)
    {
      s.BeginImage(files[i]);
      assert files[i] !in files[..i];
      ghost var before := s.annotations;
      var action, next := KeyLoop(s, files[i], events, e);
      if action == Exit {
        return Exited, spans, next;
      }
      if action == Stay {
        return Waiting, spans, next;
      }
      CommittedExtends(before, s.annotations, files, events, spans, i, e, next);
      spans := spans + [Span(e, next)];
      e := next;
    }
    end, consumed := Finished, e;
  }

  /** The main script: every image file in sorted order, each with its key
      loop, then the final save. The annotated images are the first ones of
      the sorted list, each holding the five points its own events clicked;
      the run stops at the first Esc or `q` of an image's key loop, or after
      the last image, or waits when the events run out; whenever the run
      ends by saving, the saved dictionary is the session's. */
  method Annotate(listing: seq<string>, events: seq<Event>)
    returns (s: Session, end: RunEnd, ghost spans: seq<Span>, ghost consumed: nat)
    requires Distinct(listing)
    ensures s.Valid()
    ensures Committed(s.annotations, ImagesToVisit(listing), events, spans)
    ensures SpansEnd(spans) <= consumed <= |events|
    ensures end == Finished <==> |spans| == |ImagesToVisit(listing)|
    ensures end == Finished ==> consumed == SpansEnd(spans)
    ensures end == Exited ==> LoopEnds([], events, SpansEnd(spans), consumed, Exit)
    ensures end == Waiting ==> LoopEnds([], events, SpansEnd(spans), consumed, Stay)
    ensures end != Waiting ==> s.saved == Some(s.annotations)
    ensures end == Waiting ==> s.saved == None
  {
    s := new Session();
    end, spans, consumed := VisitFiles(s, ImagesToVisit(listing), events);
    if end == Finished {
      s.SaveAnnotations();
    }
  }
}
