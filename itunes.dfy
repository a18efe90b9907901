/** `search_album_art`: the iTunes album search. The HTTP exchange is an input;
    what is modelled is the decision taken on the decoded answer: the first
    result whose artist contains the expected artist wins, and its 100x100
    thumbnail address is rewritten to the 600x600 one. The package copy and the
    standalone script's copy are identical. */
module ITunes {
  import opened Text

  /** One entry of `results`; a missing key is `None`. */
  datatype Result = Result(artistName: Option<string>, collectionName: Option<string>, artworkUrl100: Option<string>)

  /** What the search request produced: it failed (transport error, a non-2xx
      status or a body that is not JSON), or it decoded to an object whose
      `resultCount` and `results` keys may be missing. */
  datatype Response =
    | Failed
    | Payload(resultCount: Option<int>, results: Option<seq<Result>>)

  const Thumb: string := "100x100bb"
  const Large: string := "600x600bb"

  /** `artworkUrl100.replace('100x100bb', '600x600bb')`: no thumbnail token is
      left, the length is kept, and an address without the token is unchanged. */
  function Upscale(url: string): (r: string)
    ensures !Contains(r, Thumb)
    ensures |r| == |url|
    ensures !Contains(url, Thumb) ==> r == url
  {
    ReplaceRemovesAll(url, Thumb, Large);
    Replace(url, Thumb, Large)
  }

  /** The first thumbnail token becomes the 600x600 one: the text before it, in
      which no token starts, is kept, and the text after it is upscaled in turn. */
  lemma UpscaleToken(a: string, b: string)
    requires forall k :: 0 <= k < |a| ==> !StartsWith((a + Thumb)[k..], Thumb)
    ensures Upscale(a + Thumb + b) == a + Large + Upscale(b)
  {
    var x := a + (Thumb + b);
    assert a + Thumb + b == x;
    forall k | 0 <= k < |a|
      ensures !StartsWith(x[k..], Thumb)
    {
      var y := (a + Thumb)[k..];
      assert |y| >= |Thumb| && !StartsWith(y, Thumb);
      assert x[k..][..|Thumb|] == y[..|Thumb|];
    }
    ReplaceCopiesUntil(a, Thumb + b, Thumb, Large);
    ReplaceAtPattern(Thumb, b, Large);
    assert Upscale(x) == Replace(x, Thumb, Large);
    assert Upscale(b) == Replace(b, Thumb, Large);
  }

  /** `result.get('artistName', '')`. */
  function ArtistOf(res: Result): string {
    if res.artistName.Some? then res.artistName.value else ""
  }

  /** The loop's test: the lowered artist contains the lowered expected artist. */
  predicate Matches(expected: string, res: Result) {
    Contains(Lower(ArtistOf(res)), expected)
  }

  /** `i` is the first matching position of `rs`. */
  predicate FirstMatchAt(expected: string, rs: seq<Result>, i: int) {
    && 0 <= i < |rs|
    && Matches(expected, rs[i])
    && forall j :: 0 <= j < i ==> !Matches(expected, rs[j])
  }

  /** The loop ends at the first match, or runs out. */
  function FirstMatch(expected: string, rs: seq<Result>): (r: Option<nat>)
    ensures r.Some? ==> FirstMatchAt(expected, rs, r.value)
    ensures r.None? ==> forall i :: 0 <= i < |rs| ==> !Matches(expected, rs[i])
    decreases |rs|
  {
    if rs == [] then None
    else if Matches(expected, rs[0]) then Some(0)
    else match FirstMatch(expected, rs[1..])
      case Some(j) => Some(j + 1)
      case None => None
  }

  /** There is only one first match. */
  lemma FirstMatchUnique(expected: string, rs: seq<Result>, i: int)
    requires FirstMatchAt(expected, rs, i)
    ensures forall j :: FirstMatchAt(expected, rs, j) ==> j == i
  {
  }

  /** The first match is taken, and it yields an address only if it carries both
      keys the code reads (`collectionName` for the message, `artworkUrl100`). */
  predicate Picked(expected: string, rs: seq<Result>, i: int) {
    && FirstMatchAt(expected, rs, i)
    && rs[i].collectionName.Some?
    && rs[i].artworkUrl100.Some?
  }

  function Select(expected: string, rs: seq<Result>): (r: Option<string>)
    ensures r.Some? <==> exists i :: Picked(expected, rs, i)
    ensures forall i :: Picked(expected, rs, i) ==> r == Some(Upscale(rs[i].artworkUrl100.value))
  {
    match FirstMatch(expected, rs)
    case None => None
    case Some(i) =>
      FirstMatchUnique(expected, rs, i);
      var res := rs[i];
      if res.collectionName.Some? && res.artworkUrl100.Some? then
        assert Picked(expected, rs, i);
        Some(Upscale(res.artworkUrl100.value))
      else assert forall j :: Picked(expected, rs, j) ==> j == i; None
  }

  /** The whole function. A failed request, a missing key, a zero `resultCount`
      and a falsy expected artist all give `None`; otherwise the first result
      whose artist contains the lowered expected artist decides. */
  function Search(resp: Response, expectedArtist: Option<string>): (r: Option<string>)
    ensures r.Some? <==>
      && Truthy(expectedArtist) && resp.Payload?
      && resp.resultCount.Some? && resp.resultCount.value != 0
      && resp.results.Some?
      && exists i :: Picked(Lower(expectedArtist.value), resp.results.value, i)
    ensures r.Some? ==> forall i :: Picked(Lower(expectedArtist.value), resp.results.value, i) ==>
      r.value == Upscale(resp.results.value[i].artworkUrl100.value)
  {
    match resp
    case Failed => None
    case Payload(count, results) =>
      if count.None? || count.value == 0 then None
      else if !Truthy(expectedArtist) then None
      else if results.None? then None
      else Select(Lower(expectedArtist.value), results.value)
  }

  /** Any returned address is the upscaled address of a result whose artist
      contains the expected artist: never one of another artist. */
  lemma SearchNeverWrongArtist(resp: Response, expectedArtist: Option<string>)
    requires Search(resp, expectedArtist).Some?
    ensures Truthy(expectedArtist) && resp.Payload? && resp.results.Some?
    ensures exists i :: (0 <= i < |resp.results.value|
      && Contains(Lower(ArtistOf(resp.results.value[i])), Lower(expectedArtist.value))
      && resp.results.value[i].artworkUrl100.Some?
      && Search(resp, expectedArtist).value == Upscale(resp.results.value[i].artworkUrl100.value))
  {
    var i :| Picked(Lower(expectedArtist.value), resp.results.value, i);
    assert Matches(Lower(expectedArtist.value), resp.results.value[i]);
  }

  /** With no result matching, there is no address: no fallback to another artist. */
  lemma SearchNoMatchNone(count: Option<int>, rs: seq<Result>, expectedArtist: Option<string>)
    requires expectedArtist.Some?
    requires forall i :: 0 <= i < |rs| ==> !Contains(Lower(ArtistOf(rs[i])), Lower(expectedArtist.value))
    ensures Search(Payload(count, Some(rs)), expectedArtist) == None
  {
    assert forall i :: !Picked(Lower(expectedArtist.value), rs, i);
  }

  /** Without a truthy expected artist there is never an address, whatever the
      catalog answers: the first result is not taken unfiltered. */
  lemma SearchWithoutArtistNone(resp: Response, expectedArtist: Option<string>)
    requires !Truthy(expectedArtist)
    ensures Search(resp, expectedArtist) == None
  {
  }

  /** The letter case of the expected artist does not matter. */
  lemma SearchIgnoresCase(resp: Response, e1: string, e2: string)
    requires Lower(e1) == Lower(e2)
    ensures Search(resp, Some(e1)) == Search(resp, Some(e2))
  {
    assert |e1| == |Lower(e1)| == |e2|;
  }

  /** The first match wins: whatever follows it in the list is never looked at. */
  lemma {:induction false} FirstMatchIgnoresRest(expected: string, rs: seq<Result>, i: nat, more: seq<Result>)
    requires FirstMatchAt(expected, rs, i)
    ensures FirstMatch(expected, rs[..i + 1] + more) == Some(i)
  {
    var xs := rs[..i + 1] + more;
    assert forall j :: 0 <= j <= i ==> xs[j] == rs[j];
    assert FirstMatchAt(expected, xs, i);
    FirstMatchUnique(expected, xs, i);
  }

  lemma SearchIgnoresLaterResults(count: Option<int>, rs: seq<Result>, i: nat, more: seq<Result>, expectedArtist: string)
    requires FirstMatchAt(Lower(expectedArtist), rs, i)
    ensures Search(Payload(count, Some(rs[..i + 1] + more)), Some(expectedArtist)) == Search(Payload(count, Some(rs)), Some(expectedArtist))
  {
    var e := Lower(expectedArtist);
    FirstMatchIgnoresRest(e, rs, i, more);
    FirstMatchIgnoresRest(e, rs, i, rs[i + 1..]);
    assert rs[..i + 1] + rs[i + 1..] == rs;
    assert (rs[..i + 1] + more)[i] == rs[i];
    assert |expectedArtist| == |e|;
  }
}
