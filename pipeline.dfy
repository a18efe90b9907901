/** The decisions of `process_album_folder`, `process_files_individually`,
    `process_all_folders`, `clean_album_art` and the script's `main`, with the
    outside world passed in as `Services`. Each provider call is recorded in a
    call log, so that which providers ran, in which order, is part of the
    result. The state changes to the files are in module Embed. */
module Pipeline {
  import opened Text
  import opened AlbumName
  import ITunes
  import MusicBrainz
  import AcoustId
  import opened Tags

  /** What the outside world answers: the iTunes answer for each search term, the
      MusicBrainz answer for each search address (the archive's answers are
      inside it), the matches the fingerprint service yields for each file, the
      `ACOUSTID_API_KEY` setting, and `download_image` for each address. */
  datatype Services = Services(
    itunes: string -> ITunes.Response,
    musicbrainz: string -> MusicBrainz.Query,
    acoustid: string -> AcoustId.Matches,
    acoustIdKey: Option<string>,
    download: string -> Option<Bytes>)

  /** One call of a provider function. */
  datatype Call =
    | ITunesSearch(term: string, expectedArtist: Option<string>)
    | MusicBrainzSearch(query: string)
    | Fingerprint(path: string)
    | Download(url: string)

  /** The address a search call returns (the other calls return none). */
  function Answer(sv: Services, c: Call): Option<string> {
    match c
    case ITunesSearch(term, e) => ITunes.Search(sv.itunes(term), e)
    case MusicBrainzSearch(q) => MusicBrainz.Search(sv.musicbrainz(q)).url
    case Fingerprint(_) => None
    case Download(_) => None
  }

  /** `f"{band_name} {album_name}"`. */
  function AlbumTerm(band: Option<string>, album: string): string {
    Show(band) + " " + album
  }

  datatype Resolution = Resolution(url: Option<string>, calls: seq<Call>)

  /** The folder pipeline's search for an address, for the cleaned folder name
      `album`: iTunes with band and album, then MusicBrainz, then the fingerprint
      of the first file followed by iTunes again; a truthy address stops the
      chain. */
  function ResolveAlbum(sv: Services, v: Variant, band: Option<string>, album: string, firstFile: string): (r: Resolution)
    ensures 1 <= |r.calls| <= 4
    ensures r.calls[0] == ITunesSearch(AlbumTerm(band, album), band)
    ensures |r.calls| >= 2 ==> r.calls[1] == MusicBrainzSearch(MusicBrainz.QueryUrl(album, Show(band)))
    ensures |r.calls| >= 3 ==> r.calls[2] == Fingerprint(firstFile)
    ensures |r.calls| == 4 ==> r.calls[3].ITunesSearch? && r.calls[3].expectedArtist == band
    ensures forall k :: 0 <= k < |r.calls| ==> !r.calls[k].Download?
    ensures |r.calls| >= 2 <==> !Truthy(ITunes.Search(sv.itunes(AlbumTerm(band, album)), band))
    ensures |r.calls| >= 3 <==>
      |r.calls| >= 2 && !Truthy(MusicBrainz.Search(sv.musicbrainz(MusicBrainz.QueryUrl(album, Show(band)))).url)
    ensures |r.calls| == 4 <==> |r.calls| >= 3 && Truthy(AcoustId.Recognize(v, sv.acoustIdKey, sv.acoustid(firstFile)))
    ensures |r.calls| == 4 ==>
      r.calls[3] == ITunesSearch(AlbumTerm(band, AcoustId.Recognize(v, sv.acoustIdKey, sv.acoustid(firstFile)).value), band)
  {
    var term := AlbumTerm(band, album);
    var u1 := ITunes.Search(sv.itunes(term), band);
    if Truthy(u1) then Resolution(u1, [ITunesSearch(term, band)])
    else
      var q := MusicBrainz.QueryUrl(album, Show(band));
      var u2 := MusicBrainz.Search(sv.musicbrainz(q)).url;
      if Truthy(u2) then Resolution(u2, [ITunesSearch(term, band), MusicBrainzSearch(q)])
      else
        var f := FingerprintStage(sv, v, band, firstFile);
        Resolution(f.url, [ITunesSearch(term, band), MusicBrainzSearch(q)] + f.calls)
  }

  /** The chain stops at the first truthy address: every call before the last
      returned nothing, and the address is the last call's answer; the chain ends
      without an address only when the fingerprint names nothing. */
  lemma ResolveAlbumStopsAtFirstAddress(sv: Services, v: Variant, band: Option<string>, album: string, firstFile: string)
    ensures forall k :: 0 <= k < |ResolveAlbum(sv, v, band, album, firstFile).calls| - 1 ==>
      !Truthy(Answer(sv, ResolveAlbum(sv, v, band, album, firstFile).calls[k]))
    ensures |ResolveAlbum(sv, v, band, album, firstFile).calls| != 3 ==>
      ResolveAlbum(sv, v, band, album, firstFile).url == Answer(sv, ResolveAlbum(sv, v, band, album, firstFile).calls[|ResolveAlbum(sv, v, band, album, firstFile).calls| - 1])
    ensures |ResolveAlbum(sv, v, band, album, firstFile).calls| <= 2 ==> Truthy(ResolveAlbum(sv, v, band, album, firstFile).url)
    ensures |ResolveAlbum(sv, v, band, album, firstFile).calls| == 3 ==> ResolveAlbum(sv, v, band, album, firstFile).url == None
  {
    var r := ResolveAlbum(sv, v, band, album, firstFile);
    var term := AlbumTerm(band, album);
    var q := MusicBrainz.QueryUrl(album, Show(band));
    if !Truthy(ITunes.Search(sv.itunes(term), band)) && !Truthy(MusicBrainz.Search(sv.musicbrainz(q)).url) {
      var f := FingerprintStage(sv, v, band, firstFile);
      assert r.calls == [ITunesSearch(term, band), MusicBrainzSearch(q)] + f.calls;
      assert r.url == f.url;
    }
  }

  /** The last resort: the fingerprint of the first file, then iTunes with the
      name it yields. */
  function FingerprintStage(sv: Services, v: Variant, band: Option<string>, firstFile: string): (r: Resolution)
    ensures 1 <= |r.calls| <= 2
    ensures r.calls[0] == Fingerprint(firstFile)
    ensures |r.calls| == 2 <==> Truthy(AcoustId.Recognize(v, sv.acoustIdKey, sv.acoustid(firstFile)))
    ensures |r.calls| == 2 ==>
      r.calls[1] == ITunesSearch(AlbumTerm(band, AcoustId.Recognize(v, sv.acoustIdKey, sv.acoustid(firstFile)).value), band)
    ensures |r.calls| == 2 ==> r.url == Answer(sv, r.calls[1])
    ensures |r.calls| == 1 ==> r.url == None
  {
    var info := AcoustId.Recognize(v, sv.acoustIdKey, sv.acoustid(firstFile));
    if Truthy(info) then
      var term := AlbumTerm(band, info.value);
      Resolution(ITunes.Search(sv.itunes(term), band), [Fingerprint(firstFile), ITunesSearch(term, band)])
    else Resolution(None, [Fingerprint(firstFile)])
  }

  /** A MusicBrainz address is never the empty string. */
  lemma MusicBrainzUrlNeverEmpty(q: MusicBrainz.Query)
    ensures MusicBrainz.Search(q).url.Some? ==> MusicBrainz.Search(q).url.value != ""
  {
    if MusicBrainz.Search(q).url.Some? {
      var i :| MusicBrainz.Winner(q.releases, i);
      assert MusicBrainz.FrontUrl(q.releases[i].id)[0] == 'h';
    }
  }

  /** An iTunes hit for band and album ends the search: nothing else is called. */
  lemma ResolveStopsAtITunes(sv: Services, v: Variant, band: Option<string>, album: string, firstFile: string)
    requires Truthy(ITunes.Search(sv.itunes(AlbumTerm(band, album)), band))
    ensures ResolveAlbum(sv, v, band, album, firstFile).calls == [ITunesSearch(AlbumTerm(band, album), band)]
  {
  }

  /** The fingerprint is taken only after both address searches came back empty. */
  lemma ResolveFingerprintsLast(sv: Services, v: Variant, band: Option<string>, album: string, firstFile: string)
    requires Fingerprint(firstFile) in ResolveAlbum(sv, v, band, album, firstFile).calls
    ensures !Truthy(ITunes.Search(sv.itunes(AlbumTerm(band, album)), band))
    ensures !Truthy(MusicBrainz.Search(sv.musicbrainz(MusicBrainz.QueryUrl(album, Show(band)))).url)
  {
    var r := ResolveAlbum(sv, v, band, album, firstFile);
    assert |r.calls| >= 3;
    assert !Truthy(Answer(sv, r.calls[0])) && !Truthy(Answer(sv, r.calls[1]));
  }

  /** What one folder or one file comes to: the calls made, and the bytes written
      into each of its files (`None`: nothing is written). */
  datatype Plan = Plan(calls: seq<Call>, art: Option<Bytes>)

  /** An address was found and downloaded: one download, the last call. */
  function Fetch(sv: Services, res: Resolution): (p: Plan)
    ensures Truthy(res.url) ==> p.calls == res.calls + [Download(res.url.value)]
    ensures !Truthy(res.url) ==> p == Plan(res.calls, None)
    ensures p.art.Some? ==> HasBytes(p.art) && Truthy(res.url) && p.art == sv.download(res.url.value)
    ensures Truthy(res.url) && HasBytes(sv.download(res.url.value)) ==> p.art.Some?
  {
    if !Truthy(res.url) then Plan(res.calls, None)
    else
      var data := sv.download(res.url.value);
      Plan(res.calls + [Download(res.url.value)], if HasBytes(data) then data else None)
  }

  /** `process_album_folder` on a folder whose mp3 files have the given paths: a
      folder without mp3 files calls nothing and writes nothing. */
  function AlbumPlan(sv: Services, v: Variant, band: Option<string>, folderName: string, paths: seq<string>): (p: Plan)
    ensures paths == [] ==> p == Plan([], None)
    ensures p.art.Some? ==> paths != [] && HasBytes(p.art)
  {
    if paths == [] then Plan([], None)
    else Fetch(sv, ResolveAlbum(sv, v, band, CleanAlbumName(v, folderName), paths[0]))
  }

  /** At most one download, only after an address was found, and the bytes
      written are only ever bytes the download returned. */
  lemma FetchDownloadsOnce(sv: Services, res: Resolution)
    requires forall k :: 0 <= k < |res.calls| ==> !res.calls[k].Download?
    ensures forall k :: 0 <= k < |Fetch(sv, res).calls| - 1 ==> !Fetch(sv, res).calls[k].Download?
  {
    if Truthy(res.url) {
      var p := Fetch(sv, res);
      assert forall k :: 0 <= k < |p.calls| - 1 ==> p.calls[k] == res.calls[k];
    }
  }

  /** Position of the last `.` in `s`, as `str.rfind` gives it. */
  function LastDot(s: string): (r: Option<nat>)
    ensures r.Some? ==> r.value < |s| && s[r.value] == '.' && forall k :: r.value < k < |s| ==> s[k] != '.'
    ensures r.None? ==> forall k :: 0 <= k < |s| ==> s[k] != '.'
    decreases |s|
  {
    if s == [] then None
    else if s[|s| - 1] == '.' then Some(|s| - 1)
    else LastDot(s[..|s| - 1])
  }

  /** `Path.stem`: the name without its last suffix; a name whose only dot leads
      it, or that ends in a dot, has no suffix. */
  function Stem(name: string): (r: string)
    ensures |r| <= |name| && r == name[..|r|]
  {
    match LastDot(name)
    case Some(i) => if 0 < i < |name| - 1 then name[..i] else name
    case None => name
  }

  /** A file `<s>.mp3` has the stem `s`, for any non-empty `s`. */
  lemma StemOfMp3Name(s: string)
    requires s != []
    ensures Stem(s + ".mp3") == s
  {
    var n := s + ".mp3";
    assert LastDot(n) == Some(|s|) by {
      assert n[|n| - 1] == '3' && n[|n| - 2] == 'p' && n[|n| - 3] == 'm' && n[|n| - 4] == '.';
      assert n[..|n| - 1][..|n| - 2] == n[..|n| - 2];
      assert n[..|n| - 2][..|n| - 3] == n[..|n| - 3];
    }
    assert n[..|s|] == s;
  }

  /** `mp3.stem.replace('_', ' ').replace('-', ' ')`. */
  function BaseName(fileName: string): string {
    Replace(Replace(Stem(fileName), "_", " "), "-", " ")
  }

  /** The search name is the stem with every `_` and `-` turned into a space and
      every other character kept. */
  lemma BaseNameSpaces(fileName: string)
    ensures |BaseName(fileName)| == |Stem(fileName)|
    ensures forall i :: 0 <= i < |Stem(fileName)| ==>
      BaseName(fileName)[i] == (if Stem(fileName)[i] == '_' || Stem(fileName)[i] == '-' then ' ' else Stem(fileName)[i])
  {
    var s := Stem(fileName);
    ReplaceChar(s, '_', ' ');
    ReplaceChar(Replace(s, "_", " "), '-', ' ');
    assert "_" == ['_'] && " " == [' '] && "-" == ['-'];
  }

  /** `f"{band_name} {x}" if band_name else x`. */
  function FileTerm(band: Option<string>, x: string): string {
    if Truthy(band) then band.value + " " + x else x
  }

  /** `process_files_individually` for one file: iTunes with the search name and
      the band, then the fingerprint followed by an iTunes search that passes no
      expected artist. */
  function FileResolve(sv: Services, band: Option<string>, name: string, path: string): (r: Resolution)
    ensures 1 <= |r.calls| <= 3
    ensures r.calls[0] == ITunesSearch(FileTerm(band, BaseName(name)), band)
    ensures forall k :: 0 <= k < |r.calls| ==> !r.calls[k].Download?
    ensures Truthy(r.url) ==> r.calls == [ITunesSearch(FileTerm(band, BaseName(name)), band)]
    ensures Truthy(r.url) ==> r.url == Answer(sv, r.calls[0])
  {
    var term := FileTerm(band, BaseName(name));
    var u1 := ITunes.Search(sv.itunes(term), band);
    var c1 := [ITunesSearch(term, band)];
    if Truthy(u1) then Resolution(u1, c1)
    else
      var info := AcoustId.Recognize(Package, sv.acoustIdKey, sv.acoustid(path));
      var c2 := c1 + [Fingerprint(path)];
      if Truthy(info) then
        var term2 := FileTerm(band, info.value);
        ITunes.SearchWithoutArtistNone(sv.itunes(term2), None);
        Resolution(ITunes.Search(sv.itunes(term2), None), c2 + [ITunesSearch(term2, None)])
      else Resolution(u1, c2)
  }

  /** The fallback of file mode: exactly when the first search finds nothing the
      file is fingerprinted, and exactly when the fingerprint names something
      iTunes is searched again, with that name and no expected artist. */
  lemma FileResolveFallback(sv: Services, band: Option<string>, name: string, path: string)
    ensures var r := FileResolve(sv, band, name, path);
      && (|r.calls| >= 2 <==> !Truthy(ITunes.Search(sv.itunes(FileTerm(band, BaseName(name))), band)))
      && (|r.calls| >= 2 ==> r.calls[1] == Fingerprint(path) && !Truthy(r.url))
      && (|r.calls| == 3 <==> |r.calls| >= 2 && Truthy(AcoustId.Recognize(Package, sv.acoustIdKey, sv.acoustid(path))))
      && (|r.calls| == 3 ==>
            r.calls[2] == ITunesSearch(FileTerm(band, AcoustId.Recognize(Package, sv.acoustIdKey, sv.acoustid(path)).value), None))
  {
  }

  /** One file of `process_files_individually`: its search, then at most one
      download, and only non-empty bytes are written. */
  function FilePlan(sv: Services, band: Option<string>, name: string, path: string): (p: Plan)
    ensures |p.calls| >= 1 && p.calls[0] == ITunesSearch(FileTerm(band, BaseName(name)), band)
    ensures p.art.Some? ==> HasBytes(p.art) && |p.calls| == 2 && p.calls[1].Download?
  {
    Fetch(sv, FileResolve(sv, band, name, path))
  }

  /** The file-mode fallback never yields an address, so without a band file mode
      finds nothing and writes nothing. */
  lemma FileModeWithoutBand(sv: Services, band: Option<string>, name: string, path: string)
    requires !Truthy(band)
    ensures FilePlan(sv, band, name, path).art == None
  {
  }

  /** `process_all_folders`: a folder is processed when no album is given or its
      cleaned name equals the album ignoring case. */
  predicate EmbedSelects(v: Variant, target: Option<string>, folderName: string) {
    !Truthy(target) || Lower(CleanAlbumName(v, folderName)) == Lower(target.value)
  }

  /** `clean_album_art`: a folder is cleaned when the lowered, stripped title
      occurs in its lowered cleaned name. */
  predicate CleanSelects(v: Variant, title: string, folderName: string) {
    Contains(Lower(CleanAlbumName(v, folderName)), Strip(Lower(title)))
  }

  /** Every folder the embedder picks for an album, the cleaner picks for the
      same title. */
  lemma EmbedSelectionIsCleanSelection(v: Variant, target: string, folderName: string)
    requires target != [] && EmbedSelects(v, Some(target), folderName)
    ensures CleanSelects(v, target, folderName)
  {
    StripContained(Lower(target));
  }

  /** A blank title selects every folder for cleaning. */
  lemma BlankTitleCleansEverything(v: Variant, title: string, folderName: string)
    requires forall i :: 0 <= i < |title| ==> IsSpace(title[i])
    ensures CleanSelects(v, title, folderName)
  {
    StripBlank(Lower(title));
    assert StartsWith(Lower(CleanAlbumName(v, folderName)), "");
  }

  /** The script's command line: `--clean-album` wins over `--band`, and with
      neither only a message is printed. */
  datatype Command = CleanCommand(title: string) | EmbedCommand(band: string, album: Option<string>) | UsageMessage

  function Dispatch(cleanAlbum: Option<string>, band: Option<string>, album: Option<string>): (c: Command)
    ensures c.CleanCommand? <==> Truthy(cleanAlbum)
    ensures c.EmbedCommand? <==> !Truthy(cleanAlbum) && Truthy(band)
    ensures c.CleanCommand? ==> c.title == cleanAlbum.value
    ensures c.EmbedCommand? ==> c.band == band.value && c.album == album
  {
    if Truthy(cleanAlbum) then CleanCommand(cleanAlbum.value)
    else if Truthy(band) then EmbedCommand(band.value, album)
    else UsageMessage
  }
}
