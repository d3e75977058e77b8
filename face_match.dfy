/**
 * `match_face` of the face recognition engine: a two-gallery nearest
 * neighbour classifier.  The Euclidean norms between the detected face and
 * every reference encoding are taken as given: `familyDists[i]` is the
 * distance to the i-th family encoding, `criminalDists[j]` to the j-th
 * criminal encoding.
 */
module FaceMatch {
  import opened Wrappers

  /** The fixed match threshold; a match needs a distance strictly below it. */
  const Threshold: real := 0.50

  /** The `(match_type, name, dist)` triple `match_face` returns. */
  datatype Verdict =
    | Family(name: string, dist: real)
    | Criminal(name: string, dist: real)
    | Unknown
  {
    /** The `match_type` string, also written to the `recognized_as` column. */
    function Label(): (kind: string) {
      match this
      case Family(_, _) => "family"
      case Criminal(_, _) => "criminal"
      case Unknown => "unknown"
    }

    /** The `dist` component; `None` for an unknown face. */
    function Dist(): (dist: Option<real>) {
      match this
      case Family(_, d) => Some(d)
      case Criminal(_, d) => Some(d)
      case Unknown => None
    }
  }

  /** `np.min` of a non-empty vector of distances. */
  function MinDist(s: seq<real>): (m: real)
    requires |s| > 0
    ensures m in s
    ensures forall j :: 0 <= j < |s| ==> m <= s[j]
  {
    if |s| == 1 then s[0]
    else
      var m := MinDist(s[..|s| - 1]);
      if s[|s| - 1] < m then s[|s| - 1] else m
  }

  /** `np.argmin`: the FIRST index at which the minimum is attained. */
  function ArgMin(s: seq<real>): (k: nat)
    requires |s| > 0
    ensures k < |s|
    ensures forall j :: 0 <= j < |s| ==> s[k] <= s[j]
    ensures forall j :: 0 <= j < k ==> s[k] < s[j]
  {
    if |s| == 1 then 0
    else
      var k := ArgMin(s[..|s| - 1]);
      if s[|s| - 1] < s[k] then |s| - 1 else k
  }

  /** The minimum and the argmin agree: the returned distance belongs to the returned name. */
  lemma ArgMinAttainsMin(s: seq<real>)
    requires |s| > 0
    ensures s[ArgMin(s)] == MinDist(s)
  {
  }

  /** Some distance of the gallery is strictly below the threshold. */
  predicate AnyBelow(dists: seq<real>) {
    exists i :: 0 <= i < |dists| && dists[i] < Threshold
  }

  /**
   * The best match of one gallery: present exactly when some distance is
   * strictly below the threshold (so never for an empty gallery).
   */
  function BestMatch(dists: seq<real>, names: seq<string>): (r: Option<(string, real)>)
    requires |dists| == |names|
    ensures r.Some? <==> AnyBelow(dists)
  {
    if |dists| > 0 && MinDist(dists) < Threshold then
      Some((names[ArgMin(dists)], MinDist(dists)))
    else
      None
  }

  /**
   * `match_face`: family first, then criminal, else unknown.  Each gallery
   * holds one name per encoding.
   */
  function MatchFace(familyDists: seq<real>, familyNames: seq<string>,
                     criminalDists: seq<real>, criminalNames: seq<string>): (v: Verdict)
    requires |familyDists| == |familyNames| && |criminalDists| == |criminalNames|
    ensures v.Family? ==> v.name in familyNames && v.dist in familyDists && v.dist < Threshold
    ensures v.Criminal? ==> v.name in criminalNames && v.dist in criminalDists && v.dist < Threshold
  {
    match BestMatch(familyDists, familyNames)
    case Some((n, d)) => Family(n, d)
    case None =>
      match BestMatch(criminalDists, criminalNames)
      case Some((n, d)) => Criminal(n, d)
      case None => Unknown
  }

  /**
   * The complete classification: family iff some family distance is below
   * the threshold; criminal iff no family distance is and some criminal
   * distance is; unknown iff neither gallery has one.  Empty galleries have
   * no distance at all, so they are skipped.
   */
  lemma MatchFaceClassifies(familyDists: seq<real>, familyNames: seq<string>,
                            criminalDists: seq<real>, criminalNames: seq<string>)
    requires |familyDists| == |familyNames| && |criminalDists| == |criminalNames|
    ensures MatchFace(familyDists, familyNames, criminalDists, criminalNames).Family?
            <==> AnyBelow(familyDists)
    ensures MatchFace(familyDists, familyNames, criminalDists, criminalNames).Criminal?
            <==> !AnyBelow(familyDists) && AnyBelow(criminalDists)
    ensures MatchFace(familyDists, familyNames, criminalDists, criminalNames).Unknown?
            <==> !AnyBelow(familyDists) && !AnyBelow(criminalDists)
  {
  }

  /** With both galleries empty every face is unknown. */
  lemma EmptyGalleriesUnknown(familyNames: seq<string>, criminalNames: seq<string>)
    requires |familyNames| == 0 && |criminalNames| == 0
    ensures MatchFace([], familyNames, [], criminalNames) == Unknown
  {
  }

  /** An empty family gallery falls through to the criminal gallery. */
  lemma EmptyFamilyFallsThrough(familyNames: seq<string>, criminalDists: seq<real>, criminalNames: seq<string>)
    requires |familyNames| == 0 && |criminalDists| == |criminalNames|
    ensures MatchFace([], familyNames, criminalDists, criminalNames)
            == match BestMatch(criminalDists, criminalNames)
               case Some((n, d)) => Criminal(n, d)
               case None => Unknown
  {
  }

  /**
   * Strict threshold: a minimum distance of exactly 0.50 is no match; with
   * both minima at 0.50 the face is unknown.
   */
  lemma ThresholdIsStrict(familyDists: seq<real>, familyNames: seq<string>,
                          criminalDists: seq<real>, criminalNames: seq<string>)
    requires |familyDists| == |familyNames| && |criminalDists| == |criminalNames|
    requires |familyDists| > 0 && MinDist(familyDists) == Threshold
    ensures !MatchFace(familyDists, familyNames, criminalDists, criminalNames).Family?
    ensures |criminalDists| > 0 && MinDist(criminalDists) == Threshold
            ==> MatchFace(familyDists, familyNames, criminalDists, criminalNames) == Unknown
  {
    MatchFaceClassifies(familyDists, familyNames, criminalDists, criminalNames);
  }

  /** The criminal threshold is strict too, whatever the family gallery holds. */
  lemma CriminalThresholdIsStrict(familyDists: seq<real>, familyNames: seq<string>,
                                  criminalDists: seq<real>, criminalNames: seq<string>)
    requires |familyDists| == |familyNames| && |criminalDists| == |criminalNames|
    requires |criminalDists| > 0 && MinDist(criminalDists) == Threshold
    ensures !MatchFace(familyDists, familyNames, criminalDists, criminalNames).Criminal?
  {
    MatchFaceClassifies(familyDists, familyNames, criminalDists, criminalNames);
  }

  /** Family priority: a family match wins whatever the criminal distances are. */
  lemma FamilyPriority(familyDists: seq<real>, familyNames: seq<string>,
                       criminalDists: seq<real>, criminalNames: seq<string>,
                       otherDists: seq<real>, otherNames: seq<string>)
    requires |familyDists| == |familyNames| && |criminalDists| == |criminalNames|
    requires |otherDists| == |otherNames|
    requires AnyBelow(familyDists)
    ensures MatchFace(familyDists, familyNames, criminalDists, criminalNames).Family?
    ensures MatchFace(familyDists, familyNames, criminalDists, criminalNames)
            == MatchFace(familyDists, familyNames, otherDists, otherNames)
  {
    MatchFaceClassifies(familyDists, familyNames, criminalDists, criminalNames);
  }

  /**
   * The returned match: the name sits at the first index of minimum
   * distance and the returned distance is that minimum.
   */
  lemma ReturnedMatch(familyDists: seq<real>, familyNames: seq<string>,
                      criminalDists: seq<real>, criminalNames: seq<string>)
    requires |familyDists| == |familyNames| && |criminalDists| == |criminalNames|
    ensures var v := MatchFace(familyDists, familyNames, criminalDists, criminalNames);
            v.Family? ==>
              exists k :: 0 <= k < |familyDists| && v.name == familyNames[k] && v.dist == familyDists[k]
                && (forall j :: 0 <= j < |familyDists| ==> v.dist <= familyDists[j])
                && (forall j :: 0 <= j < k ==> v.dist < familyDists[j])
    ensures var v := MatchFace(familyDists, familyNames, criminalDists, criminalNames);
            v.Criminal? ==>
              exists k :: 0 <= k < |criminalDists| && v.name == criminalNames[k] && v.dist == criminalDists[k]
                && (forall j :: 0 <= j < |criminalDists| ==> v.dist <= criminalDists[j])
                && (forall j :: 0 <= j < k ==> v.dist < criminalDists[j])
  {
    var v := MatchFace(familyDists, familyNames, criminalDists, criminalNames);
    if v.Family? {
      ArgMinAttainsMin(familyDists);
      assert 0 <= ArgMin(familyDists) < |familyDists|;
    } else if v.Criminal? {
      ArgMinAttainsMin(criminalDists);
      assert 0 <= ArgMin(criminalDists) < |criminalDists|;
    }
  }

  /**
   * A detected face whose encoding is stored in the family gallery (norm 0)
   * is recognised as the first family entry at distance 0, given that norms
   * are never negative.
   */
  lemma SelfMatch(familyDists: seq<real>, familyNames: seq<string>,
                  criminalDists: seq<real>, criminalNames: seq<string>, i: nat)
    requires |familyDists| == |familyNames| && |criminalDists| == |criminalNames|
    requires i < |familyDists| && familyDists[i] == 0.0
    requires forall j :: 0 <= j < |familyDists| ==> familyDists[j] >= 0.0
    requires forall j :: 0 <= j < i ==> familyDists[j] > 0.0
    ensures MatchFace(familyDists, familyNames, criminalDists, criminalNames) == Family(familyNames[i], 0.0)
  {
    var k := ArgMin(familyDists);
    ArgMinAttainsMin(familyDists);
    assert familyDists[k] == 0.0;
  }
}
