# SentinelAI home security: recognition decisions and gallery cache, in Dafny

This project models two pieces of decision logic from the SentinelAI home
security engine and proves properties of them.

1. **The face recognition engine** (`Home_Security/face_recognition_engine.py`).
   - `match_face` is a two-gallery nearest-neighbour classifier. The family
     gallery is tried first, then the criminal gallery. A match needs the
     minimum distance to be strictly below 0.50. The name comes from the first
     index that attains the minimum.
   - The per-face body of the camera loop in `main` decides what fires for a
     face: a photo upload, visitor logs, speech and a criminal alert.
   - Two cooldown dictionaries throttle those effects:
     - `last_captured` allows one photo per key every 60 s. The key is the
       criminal's name, or `unknown_<top>` for an unknown face.
     - `last_announced` allows one announcement per name every 10 s. Family
       and criminal faces share that key.
2. **The gallery cache** (`Home_Security/download_pickle_encodings.py`). It
   holds four module-level lists, the family and criminal encodings and
   names. `load_all_encodings` replaces a gallery's pair wholesale when its
   download succeeded and leaves it untouched when the download failed. The
   engine does not read this cache: it loads local pickles once. So the two
   are modelled as separate components.

## Layout

- `wrappers.dfy` (`Wrappers`): `Option`, the model of Python's `None`.
- `decimal.dfy` (`Decimal`): `str` of an integer and `int` of a float. The
  engine uses them to build its unknown-face keys and capture file names.
  They come with a parse round trip, which shows that the printed form is
  injective.
- `face_match.dfy` (`FaceMatch`): `match_face` as pure functions over given
  distance vectors (`MinDist` is `np.min`, `ArgMin` is `np.argmin`, `MatchFace`
  is the two-gallery decision).
- `throttle.dfy` (`Throttle`): the cooldown rule `key not in d or now - d[key] > interval`.
- `decision.dfy` (`Decision`): the loop body.
  - `Step` is the specification of one face and `Run` of one frame's faces.
  - Effects are `Action` values: `Upload`, `Log`, `Speak` and `Alert`.
  - The class `Recognizer` holds the loop's locals `last_announced`,
    `last_captured` and `image_url`. Its `ProcessFace` and `ProcessFrame`
    methods update them in place. They are proved equal to `Step` and `Run`.
- `decision_properties.dfy` (`DecisionProperties`): lemmas about `Step` and `Run`.
- `encoding_cache.dfy` (`EncodingCache`): the class `Cache` with the four
  lists, plus lemmas about the replacement policy.

### Modelling decisions

- **`image_url` is carried as real state.** In `main` the local `image_url`
  is set only by a capture (line 173). It survives from face to face and from
  frame to frame, and the criminal alert reads it (line 210). The model keeps
  it as `Binding` (`Unbound`, or `Bound` with the last upload's result).
  - `Consistent` is an invariant: `image_url` is unassigned exactly when
    `last_captured` is empty. Every reachable state keeps it (`Step` and `Run`
    ensure it).
  - So the alert branch can never fail on an unassigned variable. A criminal
    is always in `last_captured` by the time its announcement is decided.
  - The URL the alert carries is the LAST upload's result. It may be another
    face's photo: see `AlertImage` and the concrete case `StaleAlertImage`.
- **Effect order follows the code.** A family welcome is spoken before the
  family log. An admitted unknown capture emits an upload and then a visitor
  log, not the upload alone. Criminal order is: upload, capture log, warning,
  alert, criminal log.
- **No eviction and no key changes.** Dictionary entries are never evicted, and
  unknown-face keys come from the unscaled `top` of the face location. Both
  are kept as the code has them (`RunKeepsKeys`, `UnknownKeysDistinct`).
  Criminal names and unknown keys share `last_captured`, and family and
  criminal names share `last_announced` (`SharedCaptureKey`, `SharedAnnounceKey`).
- **Cache fetches are inputs.** A download outcome is an `Option<Snapshot>`.
  `Some` stands for the deserialised dictionary with both keys, which is
  always truthy. `None` stands for the `None` returned after any exception.

## Model

| member | source | states |
|---|---|---|
| `FaceMatch.MinDist` | Home_Security/face_recognition_engine.py:103 | the minimum distance is one of the distances and no distance is smaller |
| `FaceMatch.ArgMin` | Home_Security/face_recognition_engine.py:105 | the index is in range, attains the minimum, and every earlier index is strictly larger (first-occurrence tie-break) |
| `FaceMatch.ArgMinAttainsMin` | Home_Security/face_recognition_engine.py:103-105 | `np.min` and `np.argmin` agree: the distance at the returned index is the minimum |
| `FaceMatch.MatchFace` | Home_Security/face_recognition_engine.py:99-116 | a family or criminal verdict names an entry of that gallery, with a distance of that gallery below 0.50 |
| `FaceMatch.BestMatch` | Home_Security/face_recognition_engine.py:101-114 | one gallery matches iff some distance is strictly below 0.50 (an empty gallery never matches) |
| `FaceMatch.MatchFaceClassifies` | Home_Security/face_recognition_engine.py:99-116 | family iff some family distance < 0.50; criminal iff none and some criminal distance < 0.50; unknown iff neither |
| `FaceMatch.EmptyGalleriesUnknown` | Home_Security/face_recognition_engine.py:101-116 | with both galleries empty the verdict is unknown |
| `FaceMatch.EmptyFamilyFallsThrough` | Home_Security/face_recognition_engine.py:101-114 | an empty family gallery leaves the verdict to the criminal gallery alone |
| `FaceMatch.ThresholdIsStrict` | Home_Security/face_recognition_engine.py:104-112 | a minimum of exactly 0.50 is no match; both minima at 0.50 give unknown |
| `FaceMatch.CriminalThresholdIsStrict` | Home_Security/face_recognition_engine.py:112 | a criminal minimum of exactly 0.50 never gives the criminal verdict, whatever the family gallery |
| `FaceMatch.FamilyPriority` | Home_Security/face_recognition_engine.py:101-106 | a family distance below 0.50 yields the family verdict, the same whatever the criminal distances are |
| `FaceMatch.ReturnedMatch` | Home_Security/face_recognition_engine.py:102-114 | the returned name and distance sit at the first index of minimum distance of the matching gallery |
| `FaceMatch.SelfMatch` | Home_Security/face_recognition_engine.py:101-106 | a stored family encoding (distance 0, norms non-negative) is recognised as that entry at distance 0 |
| `Decimal.NatToString` | Home_Security/face_recognition_engine.py:168 | the decimal form is non-empty, all digits, with no leading zero |
| `Decimal.IntToString` | Home_Security/face_recognition_engine.py:168 | `str(int)`: digits, preceded by `-` exactly for negative numbers |
| `Decimal.ParseNatToString` | Home_Security/face_recognition_engine.py:168 | reading the decimal form back gives the number |
| `Decimal.IntToStringInjective` | Home_Security/face_recognition_engine.py:168 | distinct integers print differently |
| `Decimal.Trunc` | Home_Security/face_recognition_engine.py:172 | `int(x)` truncates toward zero: the result is within one of `x` and on the zero side |
| `Throttle.Record` | Home_Security/face_recognition_engine.py:171-182 | an admitted event stamps its key with `now`; a suppressed one leaves the dictionary as it was; every other entry is kept |
| `Throttle.AdmitsAfterStamp` | Home_Security/face_recognition_engine.py:196-198 | after a stamp at `t` the key is admitted at `t2` iff `t2 - t` exceeds the interval, and other keys are unaffected |
| `Throttle.ThrottleCycle` | Home_Security/face_recognition_engine.py:171-182 | admitted first, suppressed (and unchanged) half an interval later, admitted again after more than the interval |
| `Decision.CaptureKey` | Home_Security/face_recognition_engine.py:163-168 | only family faces have no capture key |
| `Decision.Capture` | Home_Security/face_recognition_engine.py:170-182 | the capture decision keeps the `image_url` invariant and leaves a criminal's name in `last_captured` |
| `Decision.Announce` | Home_Security/face_recognition_engine.py:192-208 | the voice and logging decision never touches `last_captured` or `image_url`, and stamps the name with `now` iff its announcement is admitted |
| `Decision.Step` | Home_Security/face_recognition_engine.py:160-211 | one face keeps the invariant, so the alert's `image_url` is always assigned |
| `Decision.Run` | Home_Security/face_recognition_engine.py:147-211 | the faces of a frame keep the invariant |
| `Decision.Recognizer.constructor` | Home_Security/face_recognition_engine.py:126-127 | both dictionaries start empty and `image_url` unassigned |
| `Decision.Recognizer.ProcessFace` | Home_Security/face_recognition_engine.py:160-211 | the in-place updates of the loop body give exactly the state and effects of `Step` |
| `Decision.Recognizer.ProcessFrame` | Home_Security/face_recognition_engine.py:147-155 | matching and deciding each face of a frame in turn gives exactly `Run` |
| `DecisionProperties.CaptureRule` | Home_Security/face_recognition_engine.py:160-182 | `last_captured` is stamped with `now` iff a criminal or unknown key is absent or more than 60 s old; `image_url` then holds this upload's result; family never touches it |
| `DecisionProperties.AnnounceRule` | Home_Security/face_recognition_engine.py:192-208 | `last_announced` is stamped by name iff a family or criminal name is absent or more than 10 s old; unknown faces never touch it |
| `DecisionProperties.CaptureEvidence` | Home_Security/face_recognition_engine.py:170-180 | an admitted capture emits first `Upload(key_int(now).jpg)` then its log (no name for unknown); otherwise no upload at all |
| `DecisionProperties.FamilyEffects` | Home_Security/face_recognition_engine.py:192-200 | family: the welcome only when admitted, then the family log on every sighting |
| `DecisionProperties.CriminalEffects` | Home_Security/face_recognition_engine.py:163-211 | criminal: capture effects when admitted, then warning, alert and criminal log only when the announcement is admitted |
| `DecisionProperties.UnknownEffects` | Home_Security/face_recognition_engine.py:166-216 | unknown: at most the capture upload and its log, nothing else |
| `DecisionProperties.AlertImage` | Home_Security/face_recognition_engine.py:170-210 | an alert is for the criminal and carries this face's upload when captured now, else the previous upload's result |
| `DecisionProperties.StaleAlertImage` | Home_Security/face_recognition_engine.py:170-210 | a criminal re-announced after an unknown face's capture carries the unknown face's photo |
| `DecisionProperties.FirstFamilySighting` | Home_Security/face_recognition_engine.py:99-200 | an exact family match is recognised at distance 0 and first yields a welcome and a family log, no photo |
| `DecisionProperties.CriminalTwice` | Home_Security/face_recognition_engine.py:160-211 | a criminal at 0.3: all five effects on first sighting, none 5 s later |
| `DecisionProperties.UnknownTwice` | Home_Security/face_recognition_engine.py:160-182 | an unknown face: capture and log at first, nothing within 60 s at the same position |
| `DecisionProperties.SharedAnnounceKey` | Home_Security/face_recognition_engine.py:196-208 | a family welcome silences a same-named criminal's warning and alert for 10 s; the photo still fires |
| `DecisionProperties.SharedCaptureKey` | Home_Security/face_recognition_engine.py:163-171 | a criminal named `unknown_7` suppresses the capture of an unknown face at top 7 |
| `DecisionProperties.UnknownKeysDistinct` | Home_Security/face_recognition_engine.py:168 | unknown faces at different `top` values never share a capture key |
| `DecisionProperties.CaptureFilenamesDistinct` | Home_Security/face_recognition_engine.py:172 | two capture files of one key collide only within the same truncated second |
| `DecisionProperties.RunKeepsKeys` | Home_Security/face_recognition_engine.py:182-208 | no entry of either dictionary is ever evicted |
| `DecisionProperties.CaptureCooldownHolds` | Home_Security/face_recognition_engine.py:171-182 | while faces arrive within 60 s of a key's capture stamp, that stamp is unchanged over the frame |
| `DecisionProperties.CaptureSuppressedInWindow` | Home_Security/face_recognition_engine.py:171-182 | while faces arrive within 60 s of a key's capture stamp, no face of the frame with that key has its capture admitted |
| `DecisionProperties.AnnounceCooldownHolds` | Home_Security/face_recognition_engine.py:196-208 | while faces arrive within 10 s of a name's stamp, that stamp is unchanged over the frame |
| `DecisionProperties.AnnounceSuppressedInWindow` | Home_Security/face_recognition_engine.py:196-208 | while faces arrive within 10 s of a name's stamp, no face of the frame with that name, family or criminal, has its announcement admitted |
| `EncodingCache.ApplyKeepsLastSuccess` | Home_Security/download_pickle_encodings.py:71-79 | after any series of loads a gallery holds its latest successful download, or its old value when all failed |
| `EncodingCache.ApplyIsSomeDownload` | Home_Security/download_pickle_encodings.py:71-79 | a gallery's encodings and names always come from one download together (or are the initial ones), for dictionaries holding both keys |
| `EncodingCache.ApplyConcat` | Home_Security/download_pickle_encodings.py:84-93 | loading one series after another equals loading their concatenation |
| `EncodingCache.GalleriesIndependent` | Home_Security/download_pickle_encodings.py:61-79 | the family gallery depends only on the family downloads |
| `EncodingCache.Cache.constructor` | Home_Security/download_pickle_encodings.py:24-28 | all four caches start empty |
| `EncodingCache.Cache.LoadAll` | Home_Security/download_pickle_encodings.py:56-81 | a successful download replaces its gallery's pair wholesale; a failed one leaves it unchanged; galleries are updated independently |
| `EncodingCache.Cache.PollerLoop` | Home_Security/download_pickle_encodings.py:84-87 | each round is one load: the caches are the fold of the rounds' downloads |
| `EncodingCache.Cache.StartPolling` | Home_Security/download_pickle_encodings.py:90-93 | one load first, then the poller's rounds |
| `EncodingCache.Cache.GetFamilyEncodings` | Home_Security/download_pickle_encodings.py:97-99 | returns exactly the current family pair and changes nothing |
| `EncodingCache.Cache.GetCriminalEncodings` | Home_Security/download_pickle_encodings.py:102-104 | returns exactly the current criminal pair and changes nothing |

## Left out

- Distances are given as real numbers. The Euclidean norms computed by numpy
  (face_recognition_engine.py lines 102 and 110) are not modelled, and
  neither are floating-point rounding or NaN.
- Camera capture, resizing, face detection and encoding, box scaling, drawing,
  display and the `q` key (face_recognition_engine.py lines 125-145, 187,
  218-229) are I/O. A detected face enters as a `Face` value.
- Speech (lines 24-31) and the Supabase upload and inserts (lines 49-94) are
  emitted as `Speak`, `Upload`, `Log` and `Alert` actions.
  - Their swallowed exceptions are not modelled.
  - The URL an upload would return (`None` on failure) is an input of each
    face.
- The local pickles the engine loads at start-up (lines 36-44) and copies into
  each frame (lines 131-134) are not modelled. The family and criminal
  names are parameters of `ProcessFrame`.
- The text of the alert message is not modelled, because it includes
  `datetime.now()`. The alert carries the criminal's name. The `dist=…` notes
  carry the distance value rather than Python's float formatting.
- Decision.Step: reads the clock once per face, and uses that reading for the
  capture check and stamp and for the announcement check and stamp. The source
  reads `time.time()` again for the announcement check (lines 196, 206) and
  again for its stamp (lines 198, 208). For a captured criminal the check at
  line 206 comes after the image upload and the visitor-log insert (lines 173,
  175), which are network round trips. Each stamp comes after `speak`, which
  blocks in `engine.runAndWait()` (line 29) until the sentence has been
  spoken, seconds later. So the source's `last_announced` stamp is later than
  the model's `now`, by the upload, insert and speech time. Its effective
  10-second cooldown is longer by that amount: the model admits a name again
  10.5 s after a welcome that the source still suppresses when the welcome
  took more than 0.5 s to speak. Timestamps are reals rather than floats.
- FaceMatch.MatchFace: requires each gallery to have one name per distance.
  The source indexes the names only with the argmin, and only on a match
  (lines 105-106, 113-114). So fewer names raise `IndexError` only when that
  index is past the end, and extra names are simply ignored; the model
  covers neither case. The galleries are
  built by appending encodings and names in parallel (`Home_Security/upload.py`
  lines 44-49), so this cannot happen for galleries the repository produces.
- The cache's lock, daemon thread, sleep, `POLL_INTERVAL` parsing and progress
  prints (download_pickle_encodings.py lines 13, 30, 59, 81, 84-94) are left
  out. Each `LoadAll` is one sequential step. `PollerLoop` runs a given finite
  number of the infinite loop's rounds.
- The Supabase download and the local file write (lines 35-50) are I/O. Their
  outcome is an input.
- Pickles whose contents are not a dictionary with both keys are not
  modelled. An empty dictionary would be skipped as falsy. A dictionary
  missing a key raises `KeyError` outside the `try`. For a family dictionary
  with `encodings` but no `names`, line 73 has already replaced
  `enc_family` when line 74 raises. So `names_family` keeps the old list, and
  the criminal update (lines 76-79) is skipped. Under `poller_loop` the
  exception ends the thread, so no later refresh happens. That is the one
  path on which a gallery mixes two downloads, and it is the exception to
  `ApplyIsSomeDownload`. The same holds for a criminal dictionary without
  `names` at lines 77-78.
- `Home_Security/upload.py`, `sentinel_detect.py`, `app.py` and `del.py` are
  not part of this model. They hold I/O around the core: gallery building,
  object detection and tracking, an HTTP layer, and file deletion.
