/**
 * The per-face body of the recognition loop in `main`: given the verdict of
 * `match_face`, decide which effects fire (image upload, visitor log,
 * speech, alert), in which order, and how the two cooldown dictionaries
 * change.  Effects are returned as `Action` values instead of being
 * performed; the URL the evidence upload would return is an input.
 *
 * `Step` is the specification of one face, `Run` of the faces of one frame;
 * the class `Recognizer` holds the loop's mutable locals and implements both.
 */
module Decision {
  import opened Wrappers
  import opened Decimal
  import opened FaceMatch
  import opened Throttle

  /** `CAPTURE_INTERVAL`: seconds between two photo captures of one key. */
  const CaptureInterval: real := 60.0
  /** Seconds between two announcements of one name. */
  const AnnounceInterval: real := 10.0

  const WelcomePrefix: string := "Welcome home "
  const CriminalWarning: string := "Known criminal detected outside the home. Should I alert the authorities?"
  const CriminalAlertType: string := "criminal_detected"

  /** The `notes` column: `Photo captured dist=…` on a capture, `dist=…` otherwise. */
  datatype Notes = PhotoCaptured(dist: Option<real>) | Distance(dist: Option<real>)

  /** The effects the loop body performs, in the order it performs them. */
  datatype Action =
    | Upload(filename: string)
    | Log(name: Option<string>, recognizedAs: string, notes: Notes, imageUrl: Option<string>)
    | Speak(text: string)
    | Alert(alertType: string, subject: string, imageUrl: Option<string>)

  /**
   * The local `image_url` of `main`: unassigned until the first capture, then
   * the result of the latest upload (a URL, or `None` when it failed).
   */
  datatype Binding = Unbound | Bound(url: Option<string>)

  /** The state the loop keeps between faces and frames. */
  datatype Memory = Memory(lastAnnounced: map<string, real>, lastCaptured: map<string, real>, imageUrl: Binding)

  /** Both dictionaries empty and `image_url` unassigned. */
  const Initial: Memory := Memory(map[], map[], Unbound)

  /** `image_url` is assigned exactly when some capture has been recorded. */
  predicate Consistent(m: Memory) {
    m.imageUrl.Unbound? <==> m.lastCaptured == map[]
  }

  /** `f"unknown_{top}"`, with the unscaled `top` of the face location. */
  function UnknownKey(top: int): (key: string) {
    "unknown_" + IntToString(top)
  }

  /** The `last_captured` key: the name for a criminal, a position key for an unknown face. */
  function CaptureKey(v: Verdict, top: int): (k: Option<string>)
    ensures k.None? <==> v.Family?
  {
    match v
    case Family(_, _) => None
    case Criminal(name, _) => Some(name)
    case Unknown => Some(UnknownKey(top))
  }

  /** `f"{visitor_key}_{int(current_time)}.jpg"`. */
  function CaptureFilename(key: string, now: real): (filename: string) {
    key + "_" + IntToString(Trunc(now)) + ".jpg"
  }

  /** The capture is admitted: the face has a capture key and its cooldown has passed. */
  predicate CaptureAdmitted(m: Memory, v: Verdict, top: int, now: real) {
    CaptureKey(v, top).Some? && Admits(m.lastCaptured, CaptureKey(v, top).value, now, CaptureInterval)
  }

  /** The announcement is admitted: the face is recognised and its name's cooldown has passed. */
  predicate AnnounceAdmitted(m: Memory, v: Verdict, now: real) {
    !v.Unknown? && Admits(m.lastAnnounced, v.name, now, AnnounceInterval)
  }

  /** The visitor log written with a captured photo. */
  function CaptureLog(v: Verdict, uploaded: Option<string>): (log: Action) {
    Log(if v.Criminal? then Some(v.name) else None, v.Label(), PhotoCaptured(v.Dist()), uploaded)
  }

  /** Photo capture (unknown and criminal faces). */
  function Capture(m: Memory, v: Verdict, top: int, now: real, uploaded: Option<string>): (r: (Memory, seq<Action>))
    ensures Consistent(m) ==> Consistent(r.0)
    ensures v.Criminal? ==> v.name in r.0.lastCaptured
  {
    match CaptureKey(v, top)
    case None => (m, [])
    case Some(key) =>
      if Admits(m.lastCaptured, key, now, CaptureInterval) then
        (m.(lastCaptured := Record(m.lastCaptured, key, now, CaptureInterval), imageUrl := Bound(uploaded)),
         [Upload(CaptureFilename(key, now)), CaptureLog(v, uploaded)])
      else
        (m, [])
  }

  /** Voice and logging (family and criminal faces). */
  function Announce(m: Memory, v: Verdict, now: real): (r: (Memory, seq<Action>))
    requires AnnounceAdmitted(m, v, now) && v.Criminal? ==> m.imageUrl.Bound?
    ensures r.0.lastCaptured == m.lastCaptured && r.0.imageUrl == m.imageUrl
    ensures r.0.lastAnnounced == (if AnnounceAdmitted(m, v, now) then m.lastAnnounced[v.name := now] else m.lastAnnounced)
  {
    match v
    case Family(name, d) =>
      var log := Log(Some(name), "family", Distance(Some(d)), None);
      if Admits(m.lastAnnounced, name, now, AnnounceInterval) then
        (m.(lastAnnounced := Record(m.lastAnnounced, name, now, AnnounceInterval)), [Speak(WelcomePrefix + name), log])
      else
        (m, [log])
    case Criminal(name, d) =>
      if Admits(m.lastAnnounced, name, now, AnnounceInterval) then
        (m.(lastAnnounced := Record(m.lastAnnounced, name, now, AnnounceInterval)),
         [Speak(CriminalWarning), Alert(CriminalAlertType, name, m.imageUrl.url),
          Log(Some(name), "criminal", Distance(Some(d)), None)])
      else
        (m, [])
    case Unknown => (m, [])
  }

  /**
   * One face: the capture decision, then the voice and logging decision.
   * The alert's image URL is always assigned, so the branch that reads it
   * never fails.
   */
  function Step(m: Memory, v: Verdict, top: int, now: real, uploaded: Option<string>): (r: (Memory, seq<Action>))
    requires Consistent(m)
    ensures Consistent(r.0)
  {
    var (m1, captured) := Capture(m, v, top, now, uploaded);
    var (m2, announced) := Announce(m1, v, now);
    (m2, captured + announced)
  }

  /**
   * One detected face: its distances to every family and criminal encoding,
   * the `top` of its location, the clock reading, and what the upload would
   * return were its photo captured.
   */
  datatype Face = Face(familyDists: seq<real>, criminalDists: seq<real>, top: int, now: real, uploaded: Option<string>)

  /** Every face was measured against every encoding of both galleries. */
  predicate FitsGalleries(faces: seq<Face>, familyNames: seq<string>, criminalNames: seq<string>) {
    forall i :: 0 <= i < |faces| ==>
      |faces[i].familyDists| == |familyNames| && |faces[i].criminalDists| == |criminalNames|
  }

  function VerdictOf(f: Face, familyNames: seq<string>, criminalNames: seq<string>): (v: Verdict)
    requires |f.familyDists| == |familyNames| && |f.criminalDists| == |criminalNames|
  {
    MatchFace(f.familyDists, familyNames, f.criminalDists, criminalNames)
  }

  /** The faces of one frame, in detection order. */
  function Run(m: Memory, faces: seq<Face>, familyNames: seq<string>, criminalNames: seq<string>): (r: (Memory, seq<Action>))
    requires Consistent(m) && FitsGalleries(faces, familyNames, criminalNames)
    ensures Consistent(r.0)
    decreases |faces|
  {
    if |faces| == 0 then (m, [])
    else
      var (m1, before) := Run(m, faces[..|faces| - 1], familyNames, criminalNames);
      var f := faces[|faces| - 1];
      var (m2, acts) := Step(m1, VerdictOf(f, familyNames, criminalNames), f.top, f.now, f.uploaded);
      (m2, before + acts)
  }

  /** The mutable locals of `main` that survive from face to face. */
  class Recognizer {
    var lastAnnounced: map<string, real>
    var lastCaptured: map<string, real>
    var imageUrl: Binding

    function State(): (m: Memory)
      reads this
    {
      Memory(lastAnnounced, lastCaptured, imageUrl)
    }

    predicate Valid()
      reads this
    {
      Consistent(State())
    }

    constructor ()
      ensures Valid() && State() == Initial
    {
      lastAnnounced := map[];
      lastCaptured := map[];
      imageUrl := Unbound;
    }

    /** The body of the loop over the faces of a frame, for one face. */
    method ProcessFace(v: Verdict, top: int, now: real, uploaded: Option<string>) returns (actions: seq<Action>)
      requires Valid()
      modifies this
      ensures Valid()
      ensures (State(), actions) == Step(old(State()), v, top, now, uploaded)
    {
      ghost var m0 := State();
      actions := [];
      var shouldCapture := false;
      var visitorKey := "";
      if v.Criminal? {
        shouldCapture, visitorKey := true, v.name;
      } else if v.Unknown? {
        shouldCapture, visitorKey := true, UnknownKey(top);
      }
      assert shouldCapture <==> CaptureKey(v, top).Some?;
      assert shouldCapture ==> visitorKey == CaptureKey(v, top).value;
      if shouldCapture {
        if visitorKey !in lastCaptured || now - lastCaptured[visitorKey] > CaptureInterval {
          var filename := visitorKey + "_" + IntToString(Trunc(now)) + ".jpg";
          imageUrl := Bound(uploaded);
          actions := actions + [Upload(filename), CaptureLog(v, uploaded)];
          lastCaptured := lastCaptured[visitorKey := now];
          assert actions == [Upload(CaptureFilename(visitorKey, now)), CaptureLog(v, uploaded)];
          assert State() == m0.(lastCaptured := m0.lastCaptured[visitorKey := now], imageUrl := Bound(uploaded));
          assert Admits(m0.lastCaptured, visitorKey, now, CaptureInterval);
        }
      }
      assert (State(), actions) == Capture(m0, v, top, now, uploaded);
      ghost var m1 := State();
      ghost var captured := actions;
      match v {
        case Family(name, d) =>
          if name !in lastAnnounced || now - lastAnnounced[name] > AnnounceInterval {
            actions := actions + [Speak(WelcomePrefix + name)];
            lastAnnounced := lastAnnounced[name := now];
            assert Admits(m1.lastAnnounced, name, now, AnnounceInterval);
          }
          actions := actions + [Log(Some(name), "family", Distance(Some(d)), None)];
        case Criminal(name, d) =>
          if name !in lastAnnounced || now - lastAnnounced[name] > AnnounceInterval {
            actions := actions + [Speak(CriminalWarning)];
            lastAnnounced := lastAnnounced[name := now];
            actions := actions + [Alert(CriminalAlertType, name, imageUrl.url),
                                  Log(Some(name), "criminal", Distance(Some(d)), None)];
            assert Admits(m1.lastAnnounced, name, now, AnnounceInterval);
          }
        case Unknown =>
      }
      assert actions == captured + Announce(m1, v, now).1;
    }

    /** The loop over the faces of one frame: match each face, then decide. */
    method ProcessFrame(faces: seq<Face>, familyNames: seq<string>, criminalNames: seq<string>)
      returns (actions: seq<Action>)
      requires Valid() && FitsGalleries(faces, familyNames, criminalNames)
      modifies this
      ensures Valid()
      ensures (State(), actions) == Run(old(State()), faces, familyNames, criminalNames)
    {
      actions := [];
      for i := 0 to |faces|
        invariant Valid()
        invariant (State(), actions) == Run(old(State()), faces[..i], familyNames, criminalNames)
      {
        var f := faces[i];
        var v := MatchFace(f.familyDists, familyNames, f.criminalDists, criminalNames);
        var acts := ProcessFace(v, f.top, f.now, f.uploaded);
        actions := actions + acts;
        assert faces[..i + 1][..i] == faces[..i];
      }
      assert faces[..|faces|] == faces;
    }
  }
}
