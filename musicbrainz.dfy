/** `search_album_art_musicbrainz`: a MusicBrainz release search followed by one
    Cover Art Archive probe per release, in server order, until a release with a
    front image turns up. The answers of both services are inputs: the query's
    answer carries the release list, and each release carries the answer its
    probe would get. The package copy and the standalone script's copy are
    identical. The selection rule of `download_cover_from_musicbrainz_id` is
    here too, as it reads the same archive metadata. */
module MusicBrainz {
  import opened Text

  /** One entry of `images`: the truthiness of its `front` flag, and its `image`
      address (absent when the key is missing). */
  datatype Image = Image(front: bool, image: Option<string>)

  /** What a Cover Art Archive metadata request produced: an exception (transport
      error or a body that is not JSON), or a status code with the decoded
      `images` list (empty when the key is missing). */
  datatype Probe =
    | ProbeRaised
    | ProbeAnswered(status: int, images: seq<Image>)

  /** One entry of `artist-credit`; `name` is `None` when the key is missing. */
  datatype Credit = Credit(name: Option<string>)

  /** One entry of `releases`: its `id` (possibly missing), its `artist-credit`
      list, and what probing it at the archive would give. */
  datatype Release = Release(id: Option<string>, credits: seq<Credit>, probe: Probe)

  /** What the release search produced: an exception, or a status code with the
      decoded `releases` list (empty when the key is missing). */
  datatype Query =
    | QueryRaised
    | QueryAnswered(status: int, releases: seq<Release>)

  /** The outcome of a search: the address found, and the `id`s of the releases
      whose archive metadata was requested, in order. */
  datatype Lookup = Lookup(url: Option<string>, probed: seq<Option<string>>)

  const QueryHead: string := "https://musicbrainz.org/ws/2/release/?query=release:\""
  const QueryMiddle: string := "\"%20AND%20artist:\""
  const QueryTail: string := "\"&fmt=json&limit=20"
  const ArchiveRelease: string := "https://coverartarchive.org/release/"

  /** The search address, built by plain formatting with no escaping. */
  function QueryUrl(album: string, band: string): string {
    QueryHead + album + QueryMiddle + band + QueryTail
  }

  function MetaUrl(id: Option<string>): string {
    ArchiveRelease + Show(id)
  }

  function FrontUrl(id: Option<string>): string {
    MetaUrl(id) + "/front-500"
  }

  predicate NoQuote(s: string) {
    forall k :: 0 <= k < |s| ==> s[k] != '"'
  }

  /** Two quote-free texts each followed by a quote split a string the same way. */
  lemma SplitAtQuote(x: string, y: string, x': string, y': string)
    requires NoQuote(x) && NoQuote(x')
    requires y != [] && y[0] == '"' && y' != [] && y'[0] == '"'
    requires x + y == x' + y'
    ensures x == x' && y == y'
  {
    assert x == (x + y)[..|x|] && x' == (x' + y')[..|x'|];
    assert y == (x + y)[|x|..] && y' == (x' + y')[|x'|..];
  }

  /** Album and band reach the server verbatim: without double quotes in them,
      the search address determines both. */
  lemma QueryUrlDeterminesNames(a1: string, b1: string, a2: string, b2: string)
    requires NoQuote(a1) && NoQuote(b1) && NoQuote(a2) && NoQuote(b2)
    requires QueryUrl(a1, b1) == QueryUrl(a2, b2)
    ensures a1 == a2 && b1 == b2
  {
    var u1 := a1 + (QueryMiddle + (b1 + QueryTail));
    var u2 := a2 + (QueryMiddle + (b2 + QueryTail));
    assert QueryUrl(a1, b1) == QueryHead + u1;
    assert QueryUrl(a2, b2) == QueryHead + u2;
    assert u1 == QueryUrl(a1, b1)[|QueryHead|..];
    assert u2 == QueryUrl(a2, b2)[|QueryHead|..];
    SplitAtQuote(a1, QueryMiddle + (b1 + QueryTail), a2, QueryMiddle + (b2 + QueryTail));
    assert b1 + QueryTail == (QueryMiddle + (b1 + QueryTail))[|QueryMiddle|..];
    assert b2 + QueryTail == (QueryMiddle + (b2 + QueryTail))[|QueryMiddle|..];
    SplitAtQuote(b1, QueryTail, b2, QueryTail);
  }

  /** With no escaping, a quote in the album can stand for the band part: two
      different name pairs give the same search. */
  lemma QueryUrlUnescaped(a: string, b: string, c: string)
    ensures QueryUrl(a + QueryMiddle + b, c) == QueryUrl(a, b + QueryMiddle + c)
  {
  }

  /** `artist_credit[0]["name"] if artist_credit else band_name` does not raise. */
  predicate CreditOk(rel: Release) {
    rel.credits == [] || rel.credits[0].name.Some?
  }

  /** The probe answered 200 and some image has a truthy `front`. */
  predicate HasFront(p: Probe) {
    p.ProbeAnswered? && p.status == 200 && exists k :: 0 <= k < |p.images| && p.images[k].front
  }

  /** Release `i` is where the loop returns an address: every release up to it
      has a readable credit, and none before it has a front image. */
  predicate Winner(rs: seq<Release>, i: int) {
    && 0 <= i < |rs|
    && HasFront(rs[i].probe)
    && (forall j :: 0 <= j <= i ==> CreditOk(rs[j]))
    && (forall j :: 0 <= j < i ==> !HasFront(rs[j].probe))
  }

  /** The loop over the releases: each is probed in turn, a failed or empty probe
      moves on, the first front image wins, and a malformed credit aborts the
      whole search. */
  function Scan(rs: seq<Release>): (r: Lookup)
    ensures |r.probed| <= |rs|
    ensures r.url.Some? <==> exists i :: Winner(rs, i)
    ensures forall i :: Winner(rs, i) ==> r.url == Some(FrontUrl(rs[i].id)) && |r.probed| == i + 1
    ensures r.url.None? ==> forall j :: 0 <= j < |r.probed| ==> CreditOk(rs[j]) && !HasFront(rs[j].probe)
    ensures r.url.None? ==> |r.probed| == |rs| || !CreditOk(rs[|r.probed|])
    decreases |rs|
  {
    if rs == [] then Lookup(None, [])
    else if !CreditOk(rs[0]) then Lookup(None, [])
    else
      var m := rs[0].id;
      if HasFront(rs[0].probe) then
        assert Winner(rs, 0);
        Lookup(Some(FrontUrl(rs[0].id)), [m])
      else
        var rest := Scan(rs[1..]);
        WinnerShift(rs);
        Lookup(rest.url, [m] + rest.probed)
  }

  /** Past a release that neither aborts nor wins, the winner is the rest's. */
  lemma WinnerShift(rs: seq<Release>)
    requires rs != [] && CreditOk(rs[0]) && !HasFront(rs[0].probe)
    ensures forall i :: Winner(rs, i) <==> i > 0 && Winner(rs[1..], i - 1)
    ensures (exists i :: Winner(rs, i)) <==> exists j :: Winner(rs[1..], j)
  {
    forall i | Winner(rs, i)
      ensures i > 0 && Winner(rs[1..], i - 1)
    {
      assert forall j :: 0 <= j < i - 1 ==> rs[1..][j] == rs[j + 1];
    }
    forall j | Winner(rs[1..], j)
      ensures Winner(rs, j + 1)
    {
      assert forall k :: 1 <= k <= j + 1 ==> rs[k] == rs[1..][k - 1];
    }
  }

  /** The probe log is the `id`s of the leading releases, in server order: each
      release is probed once, and none after the loop stops. */
  lemma {:induction false} ScanProbesInOrder(rs: seq<Release>)
    ensures forall j :: 0 <= j < |Scan(rs).probed| ==> Scan(rs).probed[j] == rs[j].id
    decreases |rs|
  {
    if rs != [] && CreditOk(rs[0]) && !HasFront(rs[0].probe) {
      ScanProbesInOrder(rs[1..]);
      var rest := Scan(rs[1..]);
      assert Scan(rs).probed == [rs[0].id] + rest.probed;
      assert forall j :: 1 <= j < |rest.probed| + 1 ==> rs[j] == rs[1..][j - 1];
    }
  }

  /** The whole function: a failed query, a non-200 status or an empty release
      list gives nothing and probes nothing; otherwise the scan decides. */
  function Search(q: Query): (r: Lookup)
    ensures (q.QueryRaised? || q.status != 200 || q.releases == []) ==> r == Lookup(None, [])
    ensures r.url.Some? <==> q.QueryAnswered? && q.status == 200 && exists i :: Winner(q.releases, i)
    ensures q.QueryAnswered? && q.status == 200 ==> forall i :: Winner(q.releases, i) ==>
      r.url == Some(FrontUrl(q.releases[i].id)) && |r.probed| == i + 1
  {
    match q
    case QueryRaised => Lookup(None, [])
    case QueryAnswered(status, rels) =>
      if status != 200 || rels == [] then Lookup(None, []) else Scan(rels)
  }

  /** Exhausting the list without a hit gives nothing, after probing every release. */
  lemma ScanExhausted(rs: seq<Release>)
    requires forall j :: 0 <= j < |rs| ==> CreditOk(rs[j]) && !HasFront(rs[j].probe)
    ensures Scan(rs).url == None && |Scan(rs).probed| == |rs|
  {
    assert forall i :: !Winner(rs, i);
    var r := Scan(rs);
    assert |r.probed| == |rs|;
  }

  /** A release whose first credit has no `name` ends the search with nothing, even
      when a later release has a front image; it is not itself probed. */
  lemma ScanAbortsOnMalformedCredit(rs: seq<Release>, k: nat)
    requires k < |rs| && !CreditOk(rs[k])
    requires forall j :: 0 <= j < k ==> CreditOk(rs[j]) && !HasFront(rs[j].probe)
    ensures Scan(rs).url == None
    ensures |Scan(rs).probed| == k
  {
    assert forall i :: !Winner(rs, i);
  }

  /** `i` is the first image with a truthy `front`. */
  predicate FirstFrontAt(images: seq<Image>, i: int) {
    && 0 <= i < |images|
    && images[i].front
    && forall j :: 0 <= j < i ==> !images[j].front
  }

  /** The metadata names a usable first front image: 200, a first front image,
      and a non-empty `image` address on it. */
  predicate UsableFront(meta: Probe, i: int) {
    && meta.ProbeAnswered? && meta.status == 200
    && FirstFrontAt(meta.images, i)
    && meta.images[i].image.Some? && meta.images[i].image.value != ""
  }

  function FirstFront(images: seq<Image>): (r: Option<nat>)
    ensures r.Some? ==> FirstFrontAt(images, r.value)
    ensures r.None? ==> forall j :: 0 <= j < |images| ==> !images[j].front
    decreases |images|
  {
    if images == [] then None
    else if images[0].front then Some(0)
    else match FirstFront(images[1..])
      case Some(j) => Some(j + 1)
      case None => None
  }

  /** The image address `download_cover_from_musicbrainz_id` settles on: the
      first front image's address, or else the release's front-500 address. A
      failed metadata request, a non-200 status, no front image, a front image
      without `image`, and an empty address all fall back. */
  function CoverImageUrl(releaseId: string, meta: Probe): (r: string)
    ensures forall i :: UsableFront(meta, i) ==> r == meta.images[i].image.value
    ensures (forall i :: !UsableFront(meta, i)) ==> r == FrontUrl(Some(releaseId))
  {
    var found :=
      if meta.ProbeRaised? || meta.status != 200 then None
      else match FirstFront(meta.images)
        case None => None
        case Some(i) => meta.images[i].image;
    if found.Some? && found.value != "" then
      assert UsableFront(meta, FirstFront(meta.images).value);
      found.value
    else FrontUrl(Some(releaseId))
  }
}
