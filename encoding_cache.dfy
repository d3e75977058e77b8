/**
 * The gallery cache of the encodings downloader: module-level lists holding
 * the family and the criminal encodings and names, replaced wholesale after
 * each successful download and left as they were after a failed one.
 *
 * A download outcome is an input: `Some(snapshot)` for the deserialised
 * `{"encodings": …, "names": …}` dictionary, `None` for the `None` that
 * `download_and_save_pickle` returns when anything raised.
 */
module EncodingCache {
  import opened Wrappers

  /** A face encoding, kept as it was deserialised. */
  type Embedding = seq<real>

  /** One version of one gallery: encodings and names taken from one download. */
  datatype Snapshot = Snapshot(encodings: seq<Embedding>, names: seq<string>)

  /** The value of both caches at import time. */
  const Empty: Snapshot := Snapshot([], [])

  /** The two download outcomes of one `load_all_encodings` call. */
  datatype Fetches = Fetches(family: Option<Snapshot>, criminal: Option<Snapshot>)

  /** One gallery after one load: the downloaded snapshot if there is one, else the old one. */
  function Refresh(current: Snapshot, fetched: Option<Snapshot>): (s: Snapshot) {
    if fetched.Some? then fetched.value else current
  }

  /** One gallery after a series of loads, oldest first. */
  function Apply(s: Snapshot, fetched: seq<Option<Snapshot>>): (r: Snapshot)
    decreases |fetched|
  {
    if |fetched| == 0 then s else Refresh(Apply(s, fetched[..|fetched| - 1]), fetched[|fetched| - 1])
  }

  /** The family outcomes of a series of loads. */
  function FamilyFetches(rounds: seq<Fetches>): (r: seq<Option<Snapshot>>)
    ensures |r| == |rounds| && forall i :: 0 <= i < |rounds| ==> r[i] == rounds[i].family
  {
    seq(|rounds|, i requires 0 <= i < |rounds| => rounds[i].family)
  }

  /** The criminal outcomes of a series of loads. */
  function CriminalFetches(rounds: seq<Fetches>): (r: seq<Option<Snapshot>>)
    ensures |r| == |rounds| && forall i :: 0 <= i < |rounds| ==> r[i] == rounds[i].criminal
  {
    seq(|rounds|, i requires 0 <= i < |rounds| => rounds[i].criminal)
  }

  /** No download of the series succeeded. */
  predicate AllFailed(fetched: seq<Option<Snapshot>>) {
    forall i :: 0 <= i < |fetched| ==> fetched[i].None?
  }

  /** Download `i` succeeded and every later one failed. */
  predicate LastSuccess(fetched: seq<Option<Snapshot>>, i: int) {
    0 <= i < |fetched| && fetched[i].Some? && forall j :: i < j < |fetched| ==> fetched[j].None?
  }

  /**
   * Stale but consistent: after a series of loads a gallery holds the
   * snapshot of its latest successful download, or what it held before when
   * every download failed.
   */
  lemma {:induction false} ApplyKeepsLastSuccess(s: Snapshot, fetched: seq<Option<Snapshot>>)
    ensures AllFailed(fetched) ==> Apply(s, fetched) == s
    ensures forall i :: LastSuccess(fetched, i) ==> Apply(s, fetched) == fetched[i].value
    decreases |fetched|
  {
    if |fetched| > 0 {
      var init := fetched[..|fetched| - 1];
      ApplyKeepsLastSuccess(s, init);
      forall i | LastSuccess(fetched, i) && i < |fetched| - 1
        ensures LastSuccess(init, i)
      {
      }
    }
  }

  /**
   * A gallery never mixes downloads: it is the initial snapshot or one
   * downloaded whole.  A dictionary without `names` is the exception in the
   * source, and is outside this model.
   */
  lemma {:induction false} ApplyIsSomeDownload(s: Snapshot, fetched: seq<Option<Snapshot>>)
    ensures Apply(s, fetched) == s || Some(Apply(s, fetched)) in fetched
    decreases |fetched|
  {
    if |fetched| > 0 {
      var init := fetched[..|fetched| - 1];
      ApplyIsSomeDownload(s, init);
      if Some(Apply(s, init)) in init {
        var k :| 0 <= k < |init| && init[k] == Some(Apply(s, init));
        assert fetched[k] == init[k];
      }
    }
  }

  /** Loading series one after the other is loading their concatenation. */
  lemma {:induction false} ApplyConcat(s: Snapshot, a: seq<Option<Snapshot>>, b: seq<Option<Snapshot>>)
    ensures Apply(s, a + b) == Apply(Apply(s, a), b)
    decreases |b|
  {
    if |b| == 0 {
      assert a + b == a;
    } else {
      ApplyConcat(s, a, b[..|b| - 1]);
      assert (a + b)[..|a + b| - 1] == a + b[..|b| - 1];
    }
  }

  /** Galleries are independent: the family cache depends on the family downloads only. */
  lemma GalleriesIndependent(s: Snapshot, rounds1: seq<Fetches>, rounds2: seq<Fetches>)
    requires |rounds1| == |rounds2|
    requires forall i :: 0 <= i < |rounds1| ==> rounds1[i].family == rounds2[i].family
    ensures Apply(s, FamilyFetches(rounds1)) == Apply(s, FamilyFetches(rounds2))
  {
    assert FamilyFetches(rounds1) == FamilyFetches(rounds2);
  }

  /** The four module-level caches. */
  class Cache {
    var encFamily: seq<Embedding>
    var namesFamily: seq<string>
    var encCriminals: seq<Embedding>
    var namesCriminals: seq<string>

    function Family(): (s: Snapshot)
      reads this
    {
      Snapshot(encFamily, namesFamily)
    }

    function Criminals(): (s: Snapshot)
      reads this
    {
      Snapshot(encCriminals, namesCriminals)
    }

    /** All four caches start as empty lists. */
    constructor ()
      ensures encFamily == [] && namesFamily == [] && encCriminals == [] && namesCriminals == []
    {
      encFamily, namesFamily := [], [];
      encCriminals, namesCriminals := [], [];
    }

    /**
     * `load_all_encodings`: each gallery whose download succeeded gets both
     * its encodings and its names from that download; a failed download
     * leaves its gallery as it was, and does not stop the other gallery.
     */
    method LoadAll(fetched: Fetches)
      modifies this
      ensures Family() == Refresh(old(Family()), fetched.family)
      ensures Criminals() == Refresh(old(Criminals()), fetched.criminal)
      ensures fetched.family.None? ==> encFamily == old(encFamily) && namesFamily == old(namesFamily)
      ensures fetched.criminal.None? ==> encCriminals == old(encCriminals) && namesCriminals == old(namesCriminals)
    {
      if fetched.family.Some? {
        encFamily := fetched.family.value.encodings;
        namesFamily := fetched.family.value.names;
      }
      if fetched.criminal.Some? {
        encCriminals := fetched.criminal.value.encodings;
        namesCriminals := fetched.criminal.value.names;
      }
    }

    /** `poller_loop`, cut off after the given rounds: one load per round. */
    method PollerLoop(rounds: seq<Fetches>)
      modifies this
      ensures Family() == Apply(old(Family()), FamilyFetches(rounds))
      ensures Criminals() == Apply(old(Criminals()), CriminalFetches(rounds))
    {
      for i := 0 to |rounds|
        invariant Family() == Apply(old(Family()), FamilyFetches(rounds[..i]))
        invariant Criminals() == Apply(old(Criminals()), CriminalFetches(rounds[..i]))
      {
        LoadAll(rounds[i]);
        assert FamilyFetches(rounds[..i + 1])[..i] == FamilyFetches(rounds[..i]);
        assert CriminalFetches(rounds[..i + 1])[..i] == CriminalFetches(rounds[..i]);
      }
      assert rounds[..|rounds|] == rounds;
    }

    /**
     * `start_polling_encodings`: one load before the poller starts, then the
     * poller's rounds.
     */
    method StartPolling(first: Fetches, later: seq<Fetches>)
      modifies this
      ensures Family() == Apply(old(Family()), FamilyFetches([first] + later))
      ensures Criminals() == Apply(old(Criminals()), CriminalFetches([first] + later))
    {
      LoadAll(first);
      PollerLoop(later);
      ApplyConcat(old(Family()), [first.family], FamilyFetches(later));
      ApplyConcat(old(Criminals()), [first.criminal], CriminalFetches(later));
      assert FamilyFetches([first] + later) == [first.family] + FamilyFetches(later);
      assert CriminalFetches([first] + later) == [first.criminal] + CriminalFetches(later);
    }

    /** `get_family_encodings`: the current family pair, nothing changed. */
    method GetFamilyEncodings() returns (encodings: seq<Embedding>, names: seq<string>)
      ensures encodings == encFamily && names == namesFamily
    {
      encodings, names := encFamily, namesFamily;
    }

    /** `get_criminal_encodings`: the current criminal pair, nothing changed. */
    method GetCriminalEncodings() returns (encodings: seq<Embedding>, names: seq<string>)
      ensures encodings == encCriminals && names == namesCriminals
    {
      encodings, names := encCriminals, namesCriminals;
    }
  }
}
