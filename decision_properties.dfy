/**
 * What the per-face decision promises: which dictionary entries change, which
 * effects fire and in what order, the scenarios of the recognition loop, and
 * the cooldown guarantee over the faces of a frame.
 */
module DecisionProperties {
  import opened Wrappers
  import opened Decimal
  import opened FaceMatch
  import opened Throttle
  import opened Decision

  /**
   * Capture rule: only criminal and unknown faces touch `last_captured`;
   * the key is stamped with `now` exactly when it was absent or its last
   * capture is more than 60 seconds old, and `image_url` then holds this
   * upload's result (even a failed one).  The announce rule never touches
   * this dictionary.
   */
  lemma CaptureRule(m: Memory, v: Verdict, top: int, now: real, uploaded: Option<string>)
    requires Consistent(m)
    ensures var r := Step(m, v, top, now, uploaded);
            r.0.lastCaptured
            == (if CaptureAdmitted(m, v, top, now)
                then m.lastCaptured[CaptureKey(v, top).value := now] else m.lastCaptured)
    ensures var r := Step(m, v, top, now, uploaded);
            r.0.imageUrl == (if CaptureAdmitted(m, v, top, now) then Bound(uploaded) else m.imageUrl)
    ensures v.Family? ==> Step(m, v, top, now, uploaded).0.lastCaptured == m.lastCaptured
  {
  }

  /**
   * Announce rule: family and criminal faces share `last_announced`, keyed
   * by name; the name is stamped exactly when it was absent or its last
   * announcement is more than 10 seconds old.  Unknown faces and captures
   * never touch this dictionary.
   */
  lemma AnnounceRule(m: Memory, v: Verdict, top: int, now: real, uploaded: Option<string>)
    requires Consistent(m)
    ensures var r := Step(m, v, top, now, uploaded);
            r.0.lastAnnounced
            == (if AnnounceAdmitted(m, v, now) then m.lastAnnounced[v.name := now] else m.lastAnnounced)
    ensures v.Unknown? ==> Step(m, v, top, now, uploaded).0.lastAnnounced == m.lastAnnounced
  {
  }

  /**
   * Captured evidence: an admitted capture starts the effects with one
   * upload named `<key>_<int(now)>.jpg` followed by its visitor log (no name
   * for an unknown face, the name for a criminal); without an admitted
   * capture there is no upload at all.
   */
  lemma CaptureEvidence(m: Memory, v: Verdict, top: int, now: real, uploaded: Option<string>)
    requires Consistent(m)
    ensures var acts := Step(m, v, top, now, uploaded).1;
            CaptureAdmitted(m, v, top, now) ==>
              |acts| >= 2
              && acts[0] == Upload(CaptureFilename(CaptureKey(v, top).value, now))
              && acts[1] == Log(if v.Criminal? then Some(v.name) else None, v.Label(), PhotoCaptured(v.Dist()), uploaded)
    ensures var acts := Step(m, v, top, now, uploaded).1;
            forall i :: 0 <= i < |acts| && acts[i].Upload? ==> i == 0 && CaptureAdmitted(m, v, top, now)
  {
  }

  /**
   * A family face: a welcome is spoken only when the announcement is
   * admitted, and a visitor log follows on every sighting.
   */
  lemma FamilyEffects(m: Memory, name: string, d: real, top: int, now: real, uploaded: Option<string>)
    requires Consistent(m)
    ensures Step(m, Family(name, d), top, now, uploaded).1
            == (if Admits(m.lastAnnounced, name, now, AnnounceInterval) then [Speak(WelcomePrefix + name)] else [])
               + [Log(Some(name), "family", Distance(Some(d)), None)]
  {
  }

  /**
   * A criminal face: the capture effects, then, only when the announcement
   * is admitted, the warning, the alert and the criminal log, in that order.
   * The alert carries `image_url` as it stands after the capture decision.
   */
  lemma CriminalEffects(m: Memory, name: string, d: real, top: int, now: real, uploaded: Option<string>)
    requires Consistent(m)
    ensures var r := Step(m, Criminal(name, d), top, now, uploaded);
            r.0.imageUrl.Bound?
            && r.1
               == (if Admits(m.lastCaptured, name, now, CaptureInterval)
                   then [Upload(CaptureFilename(name, now)),
                         Log(Some(name), "criminal", PhotoCaptured(Some(d)), uploaded)]
                   else [])
                  + (if Admits(m.lastAnnounced, name, now, AnnounceInterval)
                     then [Speak(CriminalWarning), Alert(CriminalAlertType, name, r.0.imageUrl.url),
                           Log(Some(name), "criminal", Distance(Some(d)), None)]
                     else [])
  {
  }

  /** An unknown face: at most the capture and its log, nothing else. */
  lemma UnknownEffects(m: Memory, top: int, now: real, uploaded: Option<string>)
    requires Consistent(m)
    ensures Step(m, Unknown, top, now, uploaded).1
            == if Admits(m.lastCaptured, UnknownKey(top), now, CaptureInterval)
               then [Upload(CaptureFilename(UnknownKey(top), now)),
                     Log(None, "unknown", PhotoCaptured(None), uploaded)]
               else []
  {
  }

  /**
   * The alert's image: the URL of this face's upload when its capture was
   * admitted; otherwise the result of whichever upload ran last, possibly
   * for another face in an earlier frame.
   */
  lemma AlertImage(m: Memory, v: Verdict, top: int, now: real, uploaded: Option<string>)
    requires Consistent(m)
    ensures var acts := Step(m, v, top, now, uploaded).1;
            forall i :: 0 <= i < |acts| && acts[i].Alert? ==>
              v.Criminal? && acts[i].subject == v.name
              && acts[i].imageUrl == (if CaptureAdmitted(m, v, top, now) then uploaded else m.imageUrl.url)
  {
  }

  /**
   * Stale image: criminal "Bob" is captured at 0 s, an unknown face at 30 s;
   * when Bob is announced again at 40 s his alert carries the unknown face's
   * photo.
   */
  lemma StaleAlertImage(bobUrl: string, strangerUrl: string)
    ensures var r1 := Step(Initial, Criminal("Bob", 0.3), 100, 0.0, Some(bobUrl));
            var r2 := Step(r1.0, Unknown, 120, 30.0, Some(strangerUrl));
            var r3 := Step(r2.0, Criminal("Bob", 0.3), 100, 40.0, None);
            r3.1 == [Speak(CriminalWarning), Alert(CriminalAlertType, "Bob", Some(strangerUrl)),
                     Log(Some("Bob"), "criminal", Distance(Some(0.3)), None)]
  {
    var r1 := Step(Initial, Criminal("Bob", 0.3), 100, 0.0, Some(bobUrl));
    assert r1.0 == Memory(map["Bob" := 0.0], map["Bob" := 0.0], Bound(Some(bobUrl)));
    var r2 := Step(r1.0, Unknown, 120, 30.0, Some(strangerUrl));
    assert UnknownKey(120) != "Bob" by {
      assert UnknownKey(120)[0] == 'u';
    }
    assert r2.0.lastCaptured == map["Bob" := 0.0, UnknownKey(120) := 30.0];
    assert r2.0 == r1.0.(lastCaptured := r2.0.lastCaptured, imageUrl := Bound(Some(strangerUrl)));
  }

  /**
   * A known family member seen for the first time: a welcome and a family
   * log, and no photo.
   */
  lemma FirstFamilySighting(top: int, now: real, uploaded: Option<string>)
    ensures var v := MatchFace([0.0], ["Alice"], [], []);
            v == Family("Alice", 0.0)
            && Step(Initial, v, top, now, uploaded).1
               == [Speak("Welcome home Alice"), Log(Some("Alice"), "family", Distance(Some(0.0)), None)]
  {
    assert WelcomePrefix + "Alice" == "Welcome home Alice";
  }

  /**
   * A criminal at distance 0.3: the first sighting fires capture, log,
   * warning, alert and criminal log; a second sighting 5 seconds later is
   * inside both cooldowns and fires nothing.
   */
  lemma CriminalTwice(top: int, t: real, url: Option<string>, url2: Option<string>)
    ensures var v := MatchFace([], [], [0.9, 0.3], ["Eve", "Bob"]);
            var r1 := Step(Initial, v, top, t, url);
            var r2 := Step(r1.0, v, top, t + 5.0, url2);
            v == Criminal("Bob", 0.3)
            && r1.1 == [Upload(CaptureFilename("Bob", t)),
                        Log(Some("Bob"), "criminal", PhotoCaptured(Some(0.3)), url),
                        Speak(CriminalWarning), Alert(CriminalAlertType, "Bob", url),
                        Log(Some("Bob"), "criminal", Distance(Some(0.3)), None)]
            && r2.1 == []
  {
    var v := MatchFace([], [], [0.9, 0.3], ["Eve", "Bob"]);
    assert ArgMin([0.9, 0.3]) == 1;
    assert v == Criminal("Bob", 0.3);
  }

  /**
   * An unrecognised face: its first sighting at a position is captured and
   * logged; a second one at the same position at most 60 seconds later (or
   * earlier, should the clock step back) fires nothing.
   */
  lemma UnknownTwice(top: int, t: real, dt: real, url: Option<string>, url2: Option<string>)
    requires dt <= CaptureInterval
    ensures var v := MatchFace([0.7], ["Alice"], [0.5], ["Bob"]);
            var r1 := Step(Initial, v, top, t, url);
            var r2 := Step(r1.0, v, top, t + dt, url2);
            v == Unknown
            && r1.1 == [Upload(CaptureFilename(UnknownKey(top), t)), Log(None, "unknown", PhotoCaptured(None), url)]
            && r2.1 == []
  {
  }

  /**
   * Family and criminal faces share announcement keys: a family member
   * welcomed at `t` silences a criminal of the same name 5 seconds later
   * (no warning, no alert), though the criminal's photo is still captured.
   */
  lemma SharedAnnounceKey(name: string, top: int, t: real, url: Option<string>)
    ensures var r1 := Step(Initial, Family(name, 0.1), top, t, None);
            var r2 := Step(r1.0, Criminal(name, 0.2), top, t + 5.0, url);
            r2.1 == [Upload(CaptureFilename(name, t + 5.0)), Log(Some(name), "criminal", PhotoCaptured(Some(0.2)), url)]
  {
  }

  /**
   * Criminal names and unknown-face keys share `last_captured`: a criminal
   * named `unknown_7` suppresses the capture of an unknown face at top 7.
   */
  lemma SharedCaptureKey(t: real, url: Option<string>)
    ensures var r1 := Step(Initial, Criminal(UnknownKey(7), 0.2), 7, t, url);
            Step(r1.0, Unknown, 7, t + 1.0, None).1 == []
  {
  }

  /** Unknown faces at different positions never share a capture key. */
  lemma UnknownKeysDistinct(top1: int, top2: int)
    ensures UnknownKey(top1) == UnknownKey(top2) ==> top1 == top2
  {
    if UnknownKey(top1) == UnknownKey(top2) {
      var prefix := "unknown_";
      assert IntToString(top1) == UnknownKey(top1)[|prefix|..];
      assert IntToString(top2) == UnknownKey(top2)[|prefix|..];
      IntToStringInjective(top1, top2);
    }
  }

  /** Two capture files of one key have the same name only within the same whole second. */
  lemma CaptureFilenamesDistinct(key: string, t1: real, t2: real)
    ensures CaptureFilename(key, t1) == CaptureFilename(key, t2) ==> Trunc(t1) == Trunc(t2)
  {
    var f1, f2 := CaptureFilename(key, t1), CaptureFilename(key, t2);
    if f1 == f2 {
      var s1, s2 := IntToString(Trunc(t1)), IntToString(Trunc(t2));
      assert s1 == f1[|key| + 1..|f1| - 4];
      assert s2 == f2[|key| + 1..|f2| - 4];
      IntToStringInjective(Trunc(t1), Trunc(t2));
    }
  }

  /** Entries are never evicted: over a frame the dictionaries only gain keys. */
  lemma {:induction false} RunKeepsKeys(m: Memory, faces: seq<Face>, familyNames: seq<string>, criminalNames: seq<string>)
    requires Consistent(m) && FitsGalleries(faces, familyNames, criminalNames)
    ensures var r := Run(m, faces, familyNames, criminalNames);
            m.lastCaptured.Keys <= r.0.lastCaptured.Keys && m.lastAnnounced.Keys <= r.0.lastAnnounced.Keys
    decreases |faces|
  {
    if |faces| > 0 {
      var init := faces[..|faces| - 1];
      RunKeepsKeys(m, init, familyNames, criminalNames);
      var m1 := Run(m, init, familyNames, criminalNames).0;
      var f := faces[|faces| - 1];
      var v := VerdictOf(f, familyNames, criminalNames);
      CaptureRule(m1, v, f.top, f.now, f.uploaded);
      AnnounceRule(m1, v, f.top, f.now, f.uploaded);
    }
  }

  /** Every face of the frame is seen no more than `interval` seconds after `t`. */
  predicate WithinWindow(faces: seq<Face>, t: real, interval: real) {
    forall i :: 0 <= i < |faces| ==> faces[i].now - t <= interval
  }

  /**
   * Capture cooldown over a frame: while every face is seen within 60
   * seconds of a key's last capture, the key's stamp stays as it was.
   */
  lemma {:induction false} CaptureCooldownHolds(m: Memory, faces: seq<Face>, familyNames: seq<string>,
                                                criminalNames: seq<string>, key: string)
    requires Consistent(m) && FitsGalleries(faces, familyNames, criminalNames)
    requires key in m.lastCaptured && WithinWindow(faces, m.lastCaptured[key], CaptureInterval)
    ensures var r := Run(m, faces, familyNames, criminalNames);
            key in r.0.lastCaptured && r.0.lastCaptured[key] == m.lastCaptured[key]
    decreases |faces|
  {
    if |faces| > 0 {
      var init := faces[..|faces| - 1];
      CaptureCooldownHolds(m, init, familyNames, criminalNames, key);
      var m1 := Run(m, init, familyNames, criminalNames).0;
      var f := faces[|faces| - 1];
      CaptureRule(m1, VerdictOf(f, familyNames, criminalNames), f.top, f.now, f.uploaded);
    }
  }

  /**
   * No photo inside the capture window: while every face is seen within 60
   * seconds of a key's last capture, no face of the frame with that key has
   * its capture admitted, so none of them uploads a photo.
   */
  lemma CaptureSuppressedInWindow(m: Memory, faces: seq<Face>, familyNames: seq<string>,
                                  criminalNames: seq<string>, key: string)
    requires Consistent(m) && FitsGalleries(faces, familyNames, criminalNames)
    requires key in m.lastCaptured && WithinWindow(faces, m.lastCaptured[key], CaptureInterval)
    ensures forall i :: 0 <= i < |faces| && CaptureKey(VerdictOf(faces[i], familyNames, criminalNames), faces[i].top) == Some(key)
              ==> !CaptureAdmitted(Run(m, faces[..i], familyNames, criminalNames).0,
                                   VerdictOf(faces[i], familyNames, criminalNames), faces[i].top, faces[i].now)
  {
    forall i | 0 <= i < |faces|
      ensures key in Run(m, faces[..i], familyNames, criminalNames).0.lastCaptured
              && Run(m, faces[..i], familyNames, criminalNames).0.lastCaptured[key] == m.lastCaptured[key]
    {
      CaptureCooldownHolds(m, faces[..i], familyNames, criminalNames, key);
    }
  }

  /**
   * Announcement cooldown over a frame: while every face is seen within 10
   * seconds of a name's last announcement, the name's stamp stays as it was.
   */
  lemma {:induction false} AnnounceCooldownHolds(m: Memory, faces: seq<Face>, familyNames: seq<string>,
                                                 criminalNames: seq<string>, name: string)
    requires Consistent(m) && FitsGalleries(faces, familyNames, criminalNames)
    requires name in m.lastAnnounced && WithinWindow(faces, m.lastAnnounced[name], AnnounceInterval)
    ensures var r := Run(m, faces, familyNames, criminalNames);
            name in r.0.lastAnnounced && r.0.lastAnnounced[name] == m.lastAnnounced[name]
    decreases |faces|
  {
    if |faces| > 0 {
      var init := faces[..|faces| - 1];
      AnnounceCooldownHolds(m, init, familyNames, criminalNames, name);
      var m1 := Run(m, init, familyNames, criminalNames).0;
      var f := faces[|faces| - 1];
      AnnounceRule(m1, VerdictOf(f, familyNames, criminalNames), f.top, f.now, f.uploaded);
    }
  }

  /**
   * No announcement inside the window: while every face is seen within 10
   * seconds of a name's last announcement, no face of the frame with that
   * name, family or criminal, has its announcement admitted, so no welcome,
   * warning or alert fires for it.
   */
  lemma AnnounceSuppressedInWindow(m: Memory, faces: seq<Face>, familyNames: seq<string>,
                                   criminalNames: seq<string>, name: string)
    requires Consistent(m) && FitsGalleries(faces, familyNames, criminalNames)
    requires name in m.lastAnnounced && WithinWindow(faces, m.lastAnnounced[name], AnnounceInterval)
    ensures forall i :: 0 <= i < |faces| && !VerdictOf(faces[i], familyNames, criminalNames).Unknown?
                        && VerdictOf(faces[i], familyNames, criminalNames).name == name
              ==> !AnnounceAdmitted(Run(m, faces[..i], familyNames, criminalNames).0,
                                    VerdictOf(faces[i], familyNames, criminalNames), faces[i].now)
  {
    forall i | 0 <= i < |faces|
      ensures name in Run(m, faces[..i], familyNames, criminalNames).0.lastAnnounced
              && Run(m, faces[..i], familyNames, criminalNames).0.lastAnnounced[name] == m.lastAnnounced[name]
    {
      AnnounceCooldownHolds(m, faces[..i], familyNames, criminalNames, name);
    }
  }
}
