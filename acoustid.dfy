/** `recognize_with_acoustid`: names a track from its audio fingerprint. The
    fingerprint service is an input; what is modelled is the key guard (package
    copy only) and the choice of the first match that has both a title and an
    artist. */
module AcoustId {
  import opened Text
  import opened AlbumName

  /** One `(score, rid, title, artist)` tuple yielded by the service. */
  datatype Match = Match(score: int, recordingId: Option<string>, title: Option<string>, artist: Option<string>)

  /** The matches the service yields before it stops or raises: an exception ends
      the loop exactly as running out of matches does. */
  type Matches = seq<Match>

  /** `if title and artist`. */
  predicate Complete(m: Match) {
    Truthy(m.title) && Truthy(m.artist)
  }

  /** `i` is the first complete match. */
  predicate FirstCompleteAt(ms: Matches, i: int) {
    && 0 <= i < |ms|
    && Complete(ms[i])
    && forall j :: 0 <= j < i ==> !Complete(ms[j])
  }

  /** The package copy returns before calling the service when the key is unset
      or empty; the script copy has no such guard. */
  predicate CallsService(v: Variant, key: Option<string>) {
    v == Script || Truthy(key)
  }

  /** The loop over the matches: the first complete one gives `"<artist> <title>"`. */
  function FirstComplete(ms: Matches): (r: Option<string>)
    ensures r.Some? <==> exists i :: FirstCompleteAt(ms, i)
    ensures forall i :: FirstCompleteAt(ms, i) ==> r == Some(ms[i].artist.value + " " + ms[i].title.value)
    decreases |ms|
  {
    if ms == [] then None
    else if Complete(ms[0]) then
      assert FirstCompleteAt(ms, 0);
      Some(ms[0].artist.value + " " + ms[0].title.value)
    else
      var r := FirstComplete(ms[1..]);
      assert forall i :: FirstCompleteAt(ms, i) <==> i > 0 && FirstCompleteAt(ms[1..], i - 1) by {
        forall i | FirstCompleteAt(ms, i)
          ensures i > 0 && FirstCompleteAt(ms[1..], i - 1)
        {
          assert forall j :: 0 <= j < i - 1 ==> ms[1..][j] == ms[j + 1];
        }
        forall i | i > 0 && FirstCompleteAt(ms[1..], i - 1)
          ensures FirstCompleteAt(ms, i)
        {
          assert forall j :: 1 <= j < i ==> ms[j] == ms[1..][j - 1];
        }
      }
      assert (exists i :: FirstCompleteAt(ms[1..], i)) ==> exists i :: FirstCompleteAt(ms, i) by {
        if j :| FirstCompleteAt(ms[1..], j) {
          assert FirstCompleteAt(ms, j + 1);
        }
      }
      r
  }

  /** The whole function: the key guard, then the first complete match. */
  function Recognize(v: Variant, key: Option<string>, ms: Matches): (r: Option<string>)
    ensures !CallsService(v, key) ==> r == None
    ensures r.Some? <==> CallsService(v, key) && exists i :: FirstCompleteAt(ms, i)
    ensures CallsService(v, key) ==> forall i :: FirstCompleteAt(ms, i) ==>
      r == Some(ms[i].artist.value + " " + ms[i].title.value)
  {
    if !CallsService(v, key) then None else FirstComplete(ms)
  }

  /** Incomplete matches are skipped: putting them in front changes nothing. */
  lemma {:induction false} IncompleteMatchesSkipped(skipped: Matches, ms: Matches)
    requires forall j :: 0 <= j < |skipped| ==> !Complete(skipped[j])
    ensures FirstComplete(skipped + ms) == FirstComplete(ms)
    decreases |skipped|
  {
    if skipped != [] {
      assert (skipped + ms)[0] == skipped[0];
      assert (skipped + ms)[1..] == skipped[1..] + ms;
      IncompleteMatchesSkipped(skipped[1..], ms);
    } else {
      assert skipped + ms == ms;
    }
  }
}
