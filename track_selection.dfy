/**
 * Caption track selection: the first manually created track, in the track
 * set's own key order, whose language code is on the allow-list.
 */
module TrackSelection {
  import opened Wrappers
  import opened Captions

  /** The handler's allow-list of language codes, in its own order. */
  const OkLanguageCodes: seq<string> := ["en-GB", "en", "en-US", "ru"]

  /** Index `i` holds the first track whose code is allowed. */
  ghost predicate IsFirstAllowed(tracks: seq<Track>, allowed: seq<string>, i: int)
  {
    && 0 <= i < |tracks|
    && tracks[i].code in allowed
    && forall j :: 0 <= j < i ==> tracks[j].code !in allowed
  }

  /** The fragments of the selected track, or `None` when no code is allowed. */
  function SelectTrack(tracks: seq<Track>, allowed: seq<string>): Option<seq<Fragment>>
  {
    if tracks == [] then None
    else if tracks[0].code in allowed then Some(tracks[0].fragments)
    else SelectTrack(tracks[1..], allowed)
  }

  /**
   * The selection yields the fragments of the first allowed track, and it
   * yields `None` exactly when no track's code is allowed.
   */
  lemma {:induction false} SelectTrackIsFirstAllowed(tracks: seq<Track>, allowed: seq<string>)
    ensures SelectTrack(tracks, allowed).None? <==>
              forall i :: 0 <= i < |tracks| ==> tracks[i].code !in allowed
    ensures forall i :: IsFirstAllowed(tracks, allowed, i) ==>
              SelectTrack(tracks, allowed) == Some(tracks[i].fragments)
  {
    if tracks != [] && tracks[0].code !in allowed {
      SelectTrackIsFirstAllowed(tracks[1..], allowed);
      forall i | IsFirstAllowed(tracks, allowed, i)
        ensures SelectTrack(tracks, allowed) == Some(tracks[i].fragments)
      {
        assert i > 0;
        assert IsFirstAllowed(tracks[1..], allowed, i - 1);
      }
      if SelectTrack(tracks, allowed).None? {
        forall i | 0 <= i < |tracks| ensures tracks[i].code !in allowed {
          if i > 0 { assert tracks[i] == tracks[1..][i - 1]; }
        }
      }
    }
  }

  /** The search loop of `_get_video_subs`, returning at the first allowed code. */
  method GetVideoSubs(tracks: seq<Track>, allowed: seq<string>) returns (subs: Option<seq<Fragment>>)
    ensures subs == SelectTrack(tracks, allowed)
  {
    var i := 0;
    while i < |tracks|
      invariant i <= |tracks|
      invariant SelectTrack(tracks[i..], allowed) == SelectTrack(tracks, allowed)
    {
      assert tracks[i..][1..] == tracks[i + 1..];
      if tracks[i].code in allowed {
        return Some(tracks[i].fragments);
      }
      i := i + 1;
    }
    return None;
  }

  /** A track set holding only a French track yields no usable track. */
  lemma NoAllowedTrackExample(frags: seq<Fragment>)
    ensures SelectTrack([Track("fr", frags)], OkLanguageCodes) == None
  {
    assert "fr" != "en-GB" && "fr" != "en" && "fr" != "en-US" && "fr" != "ru";
  }
}
