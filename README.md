# artwork-embedder, modelled in Dafny

artwork-embedder finds album artwork for folders of mp3 files and writes it into
their ID3 tags. It ships in two forms: the `artwork_embedder` package and the
standalone script `embed_artwork.py`, which duplicates the same logic with small
differences. This project models the decisions both forms take:

- the folder-name normaliser `clean_album_name`, in both copies
  (module `AlbumName`, `Variant = Package | Script`);
- the three provider rules: the iTunes artist filter and thumbnail upscaling
  (`ITunes`), the MusicBrainz release scan with its Cover Art Archive probes
  (`MusicBrainz`), and the first complete AcoustID match (`AcoustId`);
- the fallback pipeline of `process_album_folder` and
  `process_files_individually`, with a log of the provider calls made, the
  folder filters of `process_all_folders` and `clean_album_art`, the file-mode
  search name, and the script's `main` dispatch (`Pipeline`);
- the tag policy of `embed_artwork` and of the per-file step of
  `clean_album_art`, over an abstract tag state made of the artist text and a
  list of ID3 frames (`Tags`);
- the state-changing side: a `TrackFile` class whose tags the methods rewrite in
  place, and the per-folder, per-file and per-entry loops (`Embed`).

The outside world is a parameter. Each HTTP answer, fingerprint result and
download is a field of the `Services` value. Each library outcome is a field of
the per-file `Access` value: whether music_tag loads and saves the file, and
whether mutagen does. Python `str` helpers (`strip`, ASCII `lower`, `replace`,
`in`) are in module `Text`.

Where the code and its documentation disagree, the model follows the code:

- The package normaliser is not idempotent. Its leading-marker pattern also
  matches `(YYYY)` and the mismatched `[YYYY)`, and a marker hidden behind a
  paren span shows up only on a second call (`AlbumName.PackageNotIdempotent`).
  The script's copy is idempotent (`AlbumName.ScriptCleanAlbumNameIdempotent`).
- `search_album_art` without an expected artist returns `None`, never the first
  result. As a consequence the file-mode fallback search, which passes no
  expected artist, never finds anything.

## Model

| member | source | states |
|---|---|---|
| Text.Strip | artwork_embedder/utils.py:25 | `str.strip()`: the result has no whitespace at either end, and it is a window of the input with only whitespace outside it |
| Text.StripStripped | artwork_embedder/utils.py:25 | stripping a string that is already stripped changes nothing |
| Text.StripSubsequence | artwork_embedder/utils.py:25 | stripping only deletes characters |
| Text.StripBlank | artwork_embedder/embed.py:124 | a string made only of whitespace strips to the empty string |
| Text.StripContained | artwork_embedder/embed.py:124-126 | the stripped string occurs inside the original |
| Text.LowerIdempotent | artwork_embedder/itunes_utils.py:29-32 | lowering twice is the same as lowering once |
| Text.Replace | artwork_embedder/itunes_utils.py:35 | `str.replace`: without an occurrence the input is returned unchanged; equal-length patterns keep the length (what becomes of each occurrence is stated by the two lemmas below) |
| Text.ReplaceAtPattern | artwork_embedder/itunes_utils.py:35 | an occurrence of the pattern at the front becomes the replacement, and the scan goes on after it |
| Text.ReplaceCopiesUntil | artwork_embedder/itunes_utils.py:35 | text in which no occurrence of the pattern starts is copied unchanged, and the rest is replaced on its own |
| Text.ReplaceRemovesAll | artwork_embedder/itunes_utils.py:35 | no occurrence of the pattern survives, provided no occurrence can start inside a replacement or end in one |
| Text.ReplaceChar | artwork_embedder/embed.py:102 | replacing one character by another maps each position independently and keeps the length |
| AlbumName.FindClose | artwork_embedder/utils.py:22-23 | the lazy `.*?` stops at the first closing bracket, and fails if a newline comes before any closing bracket |
| AlbumName.DropYearPrefix | artwork_embedder/utils.py:20 | without a year marker the name is unchanged; with one, the result is what follows the six-character marker and its whitespace run, and it does not start with whitespace (the script's pattern, embed_artwork.py:175, takes only `[YYYY]`) |
| AlbumName.StripSpans | artwork_embedder/utils.py:22-23 | one `re.sub` pass never lengthens the name (its meaning is stated by the `StripSpans…` lemmas) |
| AlbumName.CleanAlbumName | artwork_embedder/utils.py:25 | the result is stripped |
| AlbumName.CleanAlbumNameSubsequence | artwork_embedder/utils.py:9-25 | the normaliser only deletes characters: the result is a subsequence of the input, for both copies |
| AlbumName.StripSpansSubsequence | artwork_embedder/utils.py:22-23 | one span-removal pass only deletes characters |
| AlbumName.StripSpansSpanFree | artwork_embedder/utils.py:22-23 | after one pass, the lazy match fails at every opening bracket that is left |
| AlbumName.StripSpansKeepsSpanFree | artwork_embedder/utils.py:22-23 | the bracket pass does not create new paren spans |
| AlbumName.StripSpansIdentity | artwork_embedder/utils.py:22-23 | on a string without spans, a pass is the identity |
| AlbumName.StripSpansSpan | artwork_embedder/utils.py:22-23 | a span at the front is removed, and the scan resumes after its closing bracket |
| AlbumName.StripSpansPlainPrefix | artwork_embedder/utils.py:22-23 | text before the first opening bracket is copied unchanged |
| AlbumName.StripSpansUnclosedOpen | artwork_embedder/utils.py:22-23 | an opening bracket with no closing one before a newline is kept, and the scan goes on with the next character |
| AlbumName.SpanFreeIsNoSpan | artwork_embedder/utils.py:22-23 | absence of spans, stated for induction, implies that no opening bracket is followed by a closing one without a newline between them |
| AlbumName.StripKeepsSpanFree | artwork_embedder/utils.py:25 | stripping keeps a span-free string span-free |
| AlbumName.CleanAlbumNameSpanFree | artwork_embedder/utils.py:22-25 | after the call neither pass would find a span |
| AlbumName.CleanAlbumNameLeavesNoSpans | artwork_embedder/utils.py:22-25 | after the call no `(` is followed by a `)`, and no `[` by a `]`, unless a newline lies between them |
| AlbumName.CleanAlbumNameSpanFreeInput | artwork_embedder/utils.py:20-25 | a name without a year marker and without spans comes back merely stripped |
| AlbumName.CleanAlbumNamePlain | artwork_embedder/utils.py:20-25 | a name with no `(`, `)`, `[` or `]` comes back merely stripped |
| AlbumName.CleanAlbumNameNoParenNoClose | artwork_embedder/utils.py:20-25 | a stripped name with no `(`, no `]` and no year marker is returned unchanged |
| AlbumName.CleanAlbumNameFixpoint | artwork_embedder/utils.py:20-25 | a stripped, span-free name without a year marker is a fixed point |
| AlbumName.CleanAlbumNameIdempotentUnlessYear | artwork_embedder/utils.py:20-25 | a second call changes the result exactly when the result still starts with a year marker; this holds for both copies |
| AlbumName.ScriptYearMarkerIsSpan | embed_artwork.py:175-179 | in the script, a leading `[YYYY]` is itself a bracket span |
| AlbumName.ScriptCleanAlbumNameIdempotent | embed_artwork.py:173-182 | the script's normaliser is idempotent |
| AlbumName.YearAndAnnotationRemoved | artwork_embedder/utils.py:20-25 | `[YYYY] Title (Annotation)` becomes `Title` in both copies |
| AlbumName.ParenYearRemoved | embed_artwork.py:173-182 | `(YYYY) Title` becomes `Title` in both copies: the package drops it as a year marker, the script as an ordinary paren span |
| AlbumName.MismatchedYearMarkerAtStart | artwork_embedder/utils.py:20 | the package takes a mismatched `[YYYY)` at position 0 for a year marker |
| AlbumName.MismatchedYearMarkerKept | artwork_embedder/utils.py:20-25 | the script keeps `[YYYY) Title`; the package keeps the marker in `<plain title> [YYYY) Title`, where no paren comes before it |
| AlbumName.LeadingParenSpanRemoved | artwork_embedder/utils.py:20-25 | a leading paren span that the year pattern does not take disappears, and the rest is cleaned as usual (both span passes, then the strip): `(Live) Title` gives `Title`; when the rest holds no `(` and no `]`, the result is the stripped rest |
| AlbumName.PackageNotIdempotent | artwork_embedder/utils.py:20-25 | `(q)[YYYY) Title` gives `[YYYY) Title`, and a second call gives `Title` |
| AlbumName.CleanAlbumNameYearExample | artwork_embedder/utils.py:20-25 | `[1999] Album (Deluxe)` gives `Album` |
| AlbumName.PackageNotIdempotentExample | artwork_embedder/utils.py:20-25 | `(b)[1999) X` gives `[1999) X`, then `X` |
| ITunes.Upscale | artwork_embedder/itunes_utils.py:35 | no `100x100bb` is left, the length is kept, and an address without the token is unchanged |
| ITunes.UpscaleToken | artwork_embedder/itunes_utils.py:35 | for any address, the first `100x100bb` becomes `600x600bb`, the text before it is kept and the text after it is upscaled in turn |
| ITunes.FirstMatch | artwork_embedder/itunes_utils.py:31-35 | the loop stops at the first result whose lowered artist contains the expected artist, or finds none |
| ITunes.FirstMatchUnique | artwork_embedder/itunes_utils.py:31-35 | there is only one first match |
| ITunes.Select | artwork_embedder/itunes_utils.py:31-35 | an address is returned exactly when the first match carries `collectionName` and `artworkUrl100`, and it is that result's upscaled address |
| ITunes.Search | artwork_embedder/itunes_utils.py:8-42 | an address is returned exactly when the request succeeded, `resultCount` is present and nonzero, the expected artist is truthy, `results` is present and its first match is complete; the address is the upscaled one |
| ITunes.SearchNeverWrongArtist | artwork_embedder/itunes_utils.py:29-35 | a returned address is the upscaled address of a result whose lowered artist contains the lowered expected artist |
| ITunes.SearchNoMatchNone | artwork_embedder/itunes_utils.py:37-38 | with no matching result the answer is `None`; there is no fallback to another artist |
| ITunes.SearchWithoutArtistNone | artwork_embedder/itunes_utils.py:29-33 | with a `None` or empty expected artist the answer is `None` for every catalog answer: the first result is never taken unfiltered |
| ITunes.SearchIgnoresCase | artwork_embedder/itunes_utils.py:29-32 | expected artists that lower to the same text give the same answer |
| ITunes.FirstMatchIgnoresRest | artwork_embedder/itunes_utils.py:31-35 | whatever follows the first match does not change it |
| ITunes.SearchIgnoresLaterResults | artwork_embedder/itunes_utils.py:31-35 | replacing the results after the first match does not change the answer |
| MusicBrainz.QueryUrl | artwork_embedder/musicbrainz_utils.py:27-30 | the search address, album and band formatted in without escaping (its meaning is stated by the two lemmas below) |
| MusicBrainz.QueryUrlDeterminesNames | artwork_embedder/musicbrainz_utils.py:27-30 | for names without double quotes, the search address determines album and band |
| MusicBrainz.QueryUrlUnescaped | artwork_embedder/musicbrainz_utils.py:27-30 | names are not escaped: a quote in the album can stand for the band part, so two different pairs give the same address |
| MusicBrainz.Scan | artwork_embedder/musicbrainz_utils.py:44-67 | an address is returned exactly when some release is the winner: every credit up to it is readable, its probe answered 200 with a front image, and no earlier probe did. The address is the winner's front-500 address, and exactly winner-index-plus-one releases are probed. Without a winner, every probed release failed its probe, and the scan either exhausted the list or stopped at a malformed credit |
| MusicBrainz.WinnerShift | artwork_embedder/musicbrainz_utils.py:51-64 | past a release whose credit is readable and whose probe failed, the winner is the winner of the rest |
| MusicBrainz.ScanProbesInOrder | artwork_embedder/musicbrainz_utils.py:44-55 | the probes are of the leading releases' ids, in server order |
| MusicBrainz.Search | artwork_embedder/musicbrainz_utils.py:12-71 | a raised query, a non-200 status or an empty release list gives `None` with no probe; otherwise an address is returned exactly when there is a winner, and it is the winner's |
| MusicBrainz.ScanExhausted | artwork_embedder/musicbrainz_utils.py:66-67 | when every release has a readable credit and a failed probe, the result is `None` after probing all of them |
| MusicBrainz.ScanAbortsOnMalformedCredit | artwork_embedder/musicbrainz_utils.py:49-50 | a first credit without `name` ends the search with `None`, even if a later release has front art; that release is not probed |
| MusicBrainz.FirstFront | artwork_embedder/embed.py:151 | finds the first image flagged `front`, or reports that there is none |
| MusicBrainz.CoverImageUrl | artwork_embedder/embed.py:146-160 | the address of the first front image when the metadata answered 200 and that address is non-empty; otherwise the release's front-500 address |
| AcoustId.FirstComplete | artwork_embedder/acoustid_utils.py:30-33 | a name is returned exactly when some match has both title and artist, and it is `"<artist> <title>"` of the first such match |
| AcoustId.Recognize | artwork_embedder/acoustid_utils.py:14-36 | with the package copy and a falsy key, the answer is `None` and the service is not used; otherwise the answer is the first complete match's `"<artist> <title>"`, or `None` |
| AcoustId.IncompleteMatchesSkipped | artwork_embedder/acoustid_utils.py:31 | matches without a title or an artist in front of the list change nothing |
| Tags.Pictures | artwork_embedder/embed.py:24 | the APIC frames of a frame list: only pictures, no more of them than there are frames, and a list of pictures only is returned whole |
| Tags.WithoutPictures | artwork_embedder/embed.py:39 | `delall("APIC")` leaves only non-picture frames, and a list with no picture is returned whole |
| Tags.PicturesSplit | artwork_embedder/embed.py:39 | the pictures and the other frames split the frame list: every frame lands in exactly one of them as often as it occurs, and a frame is kept by `delall("APIC")` exactly when it is not a picture |
| Tags.PicturesAppend | artwork_embedder/embed.py:39-48 | picture selection and deletion distribute over concatenation |
| Tags.WithoutPicturesHasNone | artwork_embedder/embed.py:133 | after `delall("APIC")` no picture is left, and deleting again changes nothing |
| Tags.SetPicture | artwork_embedder/embed.py:39-48 | writing a picture: every earlier picture removed and the new one added (its meaning is stated by `SetPictureResult`) |
| Tags.SetPictureResult | artwork_embedder/embed.py:39-48 | after writing, the file holds exactly the new picture, and every other frame is kept in order |
| Tags.SetPictureIdempotent | artwork_embedder/embed.py:39-48 | writing the same picture twice is the same as writing it once |
| Tags.HasArt | artwork_embedder/embed.py:24 | `has_art`: the file holds an APIC frame |
| Tags.ArtistMatches | artwork_embedder/embed.py:23-25 | the lowered band occurs in the lowered artist |
| Tags.Embed | artwork_embedder/embed.py:16-52 | every outcome as an if-and-only-if: no image data exactly when the data is empty, and then the file is untouched. Skipped exactly when music_tag works, the file has art, the band is given and the artist contains it. Replaced exactly when music_tag works, the file has art, the band is given and the artist does not contain it; Embedded exactly when music_tag works and the file has no art. Mutagen writes exactly when music_tag fails, or the file has art and there is no band, and mutagen works; Failed exactly when in that case mutagen fails too. What is written is one picture and every other frame |
| Tags.EmbedWritesOnePicture | artwork_embedder/embed.py:30-49 | whenever a picture is written, the image data was non-empty, the artist is kept, exactly one picture is left, and the other frames are unchanged |
| Tags.EmptyBandSkipsAnyArt | artwork_embedder/embed.py:25-27 | with the empty band (as passed at lines 115 and 177), every file that already has art is skipped |
| Tags.FallbackIgnoresArtist | artwork_embedder/embed.py:33-49 | on the mutagen path the skip test is not applied: a file that music_tag would skip still gets the `Cover` JPEG |
| Tags.EmbedAgainSkips | artwork_embedder/embed.py:25-32 | after music_tag wrote a picture into a file whose artist matches the band, a second run skips the file |
| Tags.Clean | artwork_embedder/embed.py:129-139 | every outcome as an if-and-only-if: a file mutagen cannot open is a failure, a file without tags (or with an empty tag) is a no-op, and otherwise every picture is removed; the file is unchanged unless pictures are removed |
| Tags.CleanRemovesEveryPicture | artwork_embedder/embed.py:131-135 | after cleaning, no picture is left, the other frames are kept, and a second cleaning changes nothing |
| Tags.CleanUndoesEmbed | artwork_embedder/embed.py:121-139 | cleaning a file the embedder wrote leaves the file's original non-picture frames |
| Pipeline.ResolveAlbum | artwork_embedder/embed.py:62-73 | iTunes with band and album, then MusicBrainz, then the recognizer on the first file, then iTunes with `"<band> <recognized name>"` and the band, in this order and no other. MusicBrainz is asked exactly when iTunes found nothing, the recognizer exactly when MusicBrainz found nothing too, and the last search happens exactly when the recognizer names something. Nothing is downloaded during resolution |
| Pipeline.ResolveAlbumStopsAtFirstAddress | artwork_embedder/embed.py:64-73 | every call before the last returned nothing; the address is the last call's answer, and the chain ends without one only when the recognizer names nothing |
| Pipeline.FingerprintStage | artwork_embedder/embed.py:68-73 | the recognizer is called on the first file, and iTunes is searched with `"<band> <name>"` and the band exactly when it yields a truthy name; the address is that search's answer |
| Pipeline.MusicBrainzUrlNeverEmpty | artwork_embedder/musicbrainz_utils.py:60 | a MusicBrainz address is never empty |
| Pipeline.ResolveStopsAtITunes | artwork_embedder/embed.py:64-65 | an iTunes hit for band and album is the only call |
| Pipeline.ResolveFingerprintsLast | artwork_embedder/embed.py:68-70 | the recognizer is called on the first file only after both address searches came back empty |
| Pipeline.Fetch | artwork_embedder/embed.py:74-80 | with a truthy address it is downloaded exactly once, as the last call, and the bytes are used only if non-empty; without an address nothing is downloaded or written |
| Pipeline.AlbumPlan | artwork_embedder/embed.py:57-60 | a folder without mp3 files makes no call and writes nothing; bytes are written only into a non-empty folder and are never empty |
| Pipeline.FetchDownloadsOnce | artwork_embedder/embed.py:74-75 | only the last call of a plan can be a download |
| Pipeline.LastDot | artwork_embedder/embed.py:102 | the position of the last `.` in the name, if any |
| Pipeline.Stem | artwork_embedder/embed.py:102 | `Path.stem` is a prefix of the file name |
| Pipeline.StemOfMp3Name | artwork_embedder/embed.py:102 | the stem of `<s>.mp3` is `<s>` |
| Pipeline.BaseName | artwork_embedder/embed.py:102 | the search name of a file (its meaning is stated by `BaseNameSpaces`) |
| Pipeline.BaseNameSpaces | artwork_embedder/embed.py:102 | the search name is the stem with every `_` and `-` turned into a space and every other character kept |
| Pipeline.FileResolve | artwork_embedder/embed.py:101-111 | iTunes with the search name comes first and ends the chain when it finds an address, which is then that search's answer; nothing is downloaded during resolution |
| Pipeline.FileResolveFallback | artwork_embedder/embed.py:106-111 | exactly when the first search finds nothing the file is fingerprinted and no address results; exactly when the fingerprint names something, iTunes is searched again with `"<band> <name>"` (or the name alone) and no expected artist |
| Pipeline.FilePlan | artwork_embedder/embed.py:104-119 | one file's calls start with its search; bytes are written only when non-empty and after exactly one download |
| Pipeline.FileModeWithoutBand | artwork_embedder/embed.py:103-111 | without a band, file mode never has bytes to write: both searches pass no expected artist |
| Pipeline.EmbedSelects | artwork_embedder/embed.py:88-91 | `process_all_folders` keeps a directory when no album is given or its cleaned name equals the album ignoring case |
| Pipeline.CleanSelects | artwork_embedder/embed.py:124-126 | `clean_album_art` keeps a directory when the lowered, stripped title occurs in its lowered cleaned name |
| Pipeline.EmbedSelectionIsCleanSelection | artwork_embedder/embed.py:88-92 | every folder the embedder selects for an album, the cleaner selects for the same title |
| Pipeline.BlankTitleCleansEverything | artwork_embedder/embed.py:124-126 | a blank title selects every folder for cleaning |
| Pipeline.Dispatch | embed_artwork.py:263-268 | `--clean-album` wins exactly when it is truthy, embedding runs exactly when it is not and `--band` is truthy, and otherwise only a message is printed |
| Embed.TrackFile.constructor | artwork_embedder/embed.py:22-24 | the new file holds the given path, access and tags |
| Embed.TrackFile.EmbedArtwork | artwork_embedder/embed.py:16-52 | the in-place update of the tags, step by step, ends in the state and outcome `Tags.Embed` prescribes |
| Embed.TrackFile.CleanArtwork | artwork_embedder/embed.py:130-139 | the in-place deletion ends in the state and outcome `Tags.Clean` prescribes |
| Embed.EmbedEach | artwork_embedder/embed.py:77-78 | every file of the folder gets the same bytes, each on its own |
| Embed.ProcessAlbumFolder | artwork_embedder/embed.py:54-82 | the calls made are those of `AlbumPlan`, and each file ends as the plan's bytes leave it |
| Embed.DisjointEntry | artwork_embedder/embed.py:87-92 | the files of one entry are distinct and belong to no other entry |
| Embed.ProcessAllFolders | artwork_embedder/embed.py:84-92 | the selected directories are processed in order, with the calls of each folder's plan; every other entry is left alone |
| Embed.ProcessEntry | artwork_embedder/embed.py:87-92 | one entry of the loop: a selected directory gets its folder plan's calls and bytes, any other entry no call and no write |
| Embed.CleanAlbumArt | artwork_embedder/embed.py:121-139 | every file of every selected directory is cleaned on its own; every other entry is left alone |
| Embed.CleanEach | artwork_embedder/embed.py:129-139 | a file that fails or has no tags does not stop the others |
| Embed.ProcessFile | artwork_embedder/embed.py:102-119 | one file's calls are those of its plan; the file is written with `band_name or ""` when the plan has bytes |
| Embed.ProcessFileAt | artwork_embedder/embed.py:101-119 | one pass of the file loop on the `i`-th file: its calls are its plan's, it ends as its plan leaves it, and no other file changes |
| Embed.ProcessFilesIndividually | artwork_embedder/embed.py:94-119 | the files are handled in order, each with its own plan |
| Embed.FileModeWithoutBandWritesNothing | artwork_embedder/embed.py:103-111 | without a band, no file has bytes to be written in file mode |
| Embed.RunScript | embed_artwork.py:254-268 | with neither flag nothing is called or changed; clean mode changes only the selected folders' files and makes no provider call; embed mode processes the folders as `process_all_folders` does |

The script's copies of the provider functions, of `embed_artwork`, of
`process_album_folder`, `process_all_folders` and `clean_album_art`
(embed_artwork.py:19-28, 35-114, 125-171, 184-252) are the same members, used
with `Variant.Script`. The script's key guard is absent:
`AcoustId.CallsService(Script, _)` holds.

## Left out

- HTTP: every `requests.get`, `raise_for_status` and `.json()` is part of a
  `Services` answer; `download_image` is the `download` field.
- URL quoting of the iTunes term: the iTunes answer is keyed by the unquoted
  term.
- JSON values of unexpected types (a non-string `artistName`, a non-list
  `results`). Such values raise and are caught in the source; the model admits
  only well-typed payloads and missing keys.
- Unicode: lower-casing covers ASCII letters only, and `\d` covers ASCII digits
  only. Whitespace is the fixed set that `str.isspace` accepts.
- music_tag and mutagen internals. Which picture fields music_tag writes is an
  input (`Access.musicTagStyle`). The model assumes music_tag replaces every
  APIC frame. "Has art" is taken as the presence of an APIC frame.
- Partial writes: a library failure leaves the file's tags as they were.
- `artwork_embedder/cli.py`, argparse, the `input()` key prompt and
  `load_dotenv`/`os.getenv`: the key is the `acoustIdKey` field. cli.py is not
  part of this model.
- `download_cover_from_musicbrainz_id` beyond its image choice. `embed.py` does
  not import `requests`, so at run time both of its requests raise a caught
  `NameError` and nothing is embedded. The model states only the selection
  rule (`MusicBrainz.CoverImageUrl`).
- Directory traversal (`rglob`, `glob`, `iterdir`, `is_dir`): folders are
  sequences of entries and files. `Distinct` and `Disjoint` state that a file is
  found only once.
- Printed messages: they appear only as outcome values (`EmbedOutcome`,
  `CleanOutcome`, `Command.UsageMessage`).
- AcoustId.Recognize: an exception from the fingerprint service is modelled as
  the end of the match sequence, not as a separate error.
- The test scripts, `setup.py` and `doc/source/conf.py`.
