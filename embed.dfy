/** The state-changing part: mp3 files whose tags the program rewrites, and the
    loops of `process_album_folder`, `process_all_folders`,
    `process_files_individually`, `clean_album_art` and the script's `main`.
    Every method is proved against the pure plans of module Pipeline and the tag
    policy of module Tags. */
module Embed {
  import opened Text
  import opened AlbumName
  import opened Tags
  import opened Pipeline

  /** One mp3 file: where it is, how the tag libraries fare on it, and its tags. */
  class TrackFile {
    const path: string
    const name: string
    const access: Access
    var artist: string
    var frames: Option<seq<Frame>>

    function State(): Track
      reads this
    {
      Track(artist, frames)
    }

    constructor (path: string, name: string, access: Access, t: Track)
      ensures this.path == path && this.name == name && this.access == access
      ensures State() == t
    {
      this.path := path;
      this.name := name;
      this.access := access;
      this.artist := t.artist;
      this.frames := t.frames;
    }

    /** `embed_artwork(mp3_path, image_data, band_name)`. */
    method EmbedArtwork(image: Option<Bytes>, band: Option<string>) returns (outcome: EmbedOutcome)
      modifies this
      ensures Tags.Embed(old(State()), access, image, band) == Embedding(outcome, State())
    {
      if !HasBytes(image) {
        return NoImage;
      }
      var hasArt := HasArt(State());
      if access.musicTagWorks && !(hasArt && band.None?) {
        var currentArtist := Lower(artist);
        if hasArt && Contains(currentArtist, Lower(band.value)) {
          return Skipped;
        }
        outcome := if hasArt then Replaced else Embedded;
        frames := Some(SetPicture(FramesOf(State()), access.musicTagStyle, image.value));
        return;
      }
      if !access.mutagenWorks {
        return Failed;
      }
      if frames.None? {
        frames := Some([]);
      }
      frames := Some(WithoutPictures(frames.value));
      frames := Some(frames.value + [Picture(MutagenStyle, image.value)]);
      outcome := EmbeddedByMutagen;
    }

    /** One file of `clean_album_art`. */
    method CleanArtwork() returns (outcome: CleanOutcome)
      modifies this
      ensures Tags.Clean(old(State()), access) == Cleaning(outcome, State())
    {
      if !access.mutagenWorks {
        return CleanFailed;
      }
      if frames.None? || frames.value == [] {
        return NoTags;
      }
      frames := Some(WithoutPictures(frames.value));
      outcome := Removed;
    }
  }

  /** An entry of the music folder: its name, whether it is a directory, and the
      mp3 files found under it. */
  datatype Entry = Entry(name: string, isDir: bool, files: seq<TrackFile>)

  function Paths(files: seq<TrackFile>): seq<string> {
    seq(|files|, i requires 0 <= i < |files| => files[i].path)
  }

  /** Different paths are different files. */
  predicate Distinct(files: seq<TrackFile>) {
    forall i, j :: 0 <= i < j < |files| ==> files[i] != files[j]
  }

  /** No file is found under two entries, nor twice under one. */
  predicate Disjoint(es: seq<Entry>) {
    forall k1, j1, k2, j2 ::
      0 <= k1 < |es| && 0 <= j1 < |es[k1].files| && 0 <= k2 < |es| && 0 <= j2 < |es[k2].files| && (k1 != k2 || j1 != j2)
      ==> es[k1].files[j1] != es[k2].files[j2]
  }

  ghost function Footprint(es: seq<Entry>): set<TrackFile> {
    set k, j | 0 <= k < |es| && 0 <= j < |es[k].files| :: es[k].files[j]
  }

  /** A file's tags after its folder's plan: written when the plan has bytes. */
  function AfterPlan(t: Track, acc: Access, art: Option<Bytes>, band: Option<string>): Track {
    if art.Some? then Tags.Embed(t, acc, art, band).track else t
  }

  /** The `for mp3 in mp3_files: embed_artwork(mp3, art_data, band_name)` loop:
      every file gets the same bytes, each on its own. */
  method EmbedEach(files: seq<TrackFile>, art: Bytes, band: Option<string>)
    requires Distinct(files)
    modifies set f | f in files
    ensures forall i :: 0 <= i < |files| ==>
      files[i].State() == Tags.Embed(old(files[i].State()), files[i].access, Some(art), band).track
  {
    for i := 0 to |files|
      invariant forall k :: 0 <= k < i ==>
        files[k].State() == Tags.Embed(old(files[k].State()), files[k].access, Some(art), band).track
      invariant forall k :: i <= k < |files| ==> files[k].State() == old(files[k].State())
    {
      var _ := files[i].EmbedArtwork(Some(art), band);
    }
  }

  /** `process_album_folder(folder, band_name)`. */
  method ProcessAlbumFolder(sv: Services, v: Variant, folder: Entry, band: Option<string>) returns (calls: seq<Call>)
    requires Distinct(folder.files)
    modifies set f | f in folder.files
    ensures calls == AlbumPlan(sv, v, band, folder.name, Paths(folder.files)).calls
    ensures forall i :: 0 <= i < |folder.files| ==>
      folder.files[i].State() ==
        AfterPlan(old(folder.files[i].State()), folder.files[i].access, AlbumPlan(sv, v, band, folder.name, Paths(folder.files)).art, band)
  {
    var files := folder.files;
    if files == [] {
      return [];
    }
    var res := ResolveAlbum(sv, v, band, CleanAlbumName(v, folder.name), files[0].path);
    calls := res.calls;
    if Truthy(res.url) {
      var artData := sv.download(res.url.value);
      calls := calls + [Download(res.url.value)];
      if HasBytes(artData) {
        EmbedEach(files, artData.value, band);
      }
    }
  }

  /** The bytes `process_all_folders` writes into the files of one entry. */
  function FolderArt(sv: Services, v: Variant, band: Option<string>, target: Option<string>, e: Entry): Option<Bytes> {
    if e.isDir && EmbedSelects(v, target, e.name) then AlbumPlan(sv, v, band, e.name, Paths(e.files)).art else None
  }

  /** The calls `process_all_folders` makes for the entries, in order. */
  function AllFoldersCalls(sv: Services, v: Variant, band: Option<string>, target: Option<string>, es: seq<Entry>): seq<Call>
    decreases |es|
  {
    if es == [] then []
    else
      var e := es[|es| - 1];
      AllFoldersCalls(sv, v, band, target, es[..|es| - 1])
      + (if e.isDir && EmbedSelects(v, target, e.name) then AlbumPlan(sv, v, band, e.name, Paths(e.files)).calls else [])
  }

  lemma DisjointEntry(es: seq<Entry>, k: nat)
    requires Disjoint(es) && k < |es|
    ensures Distinct(es[k].files)
    ensures forall f | f in es[k].files :: f in Footprint(es)
    ensures forall k2, j2 :: 0 <= k2 < |es| && k2 != k && 0 <= j2 < |es[k2].files| ==> es[k2].files[j2] !in es[k].files
  {
    forall f | f in es[k].files
      ensures f in Footprint(es)
    {
      var j :| 0 <= j < |es[k].files| && es[k].files[j] == f;
      assert es[k].files[j] in Footprint(es);
    }
  }

  /** `process_all_folders(root, band_name, target_album)`: each selected
      directory is processed as `process_album_folder` does; every other entry is
      left alone. */
  method ProcessAllFolders(sv: Services, v: Variant, entries: seq<Entry>, band: Option<string>, target: Option<string>)
    returns (calls: seq<Call>)
    requires Disjoint(entries)
    modifies Footprint(entries)
    ensures calls == AllFoldersCalls(sv, v, band, target, entries)
    ensures forall k, j :: 0 <= k < |entries| && 0 <= j < |entries[k].files| ==>
      entries[k].files[j].State() ==
        AfterPlan(old(entries[k].files[j].State()), entries[k].files[j].access, FolderArt(sv, v, band, target, entries[k]), band)
  {
    calls := [];
    for i := 0 to |entries|
      invariant calls == AllFoldersCalls(sv, v, band, target, entries[..i])
      invariant forall k, j :: 0 <= k < i && 0 <= j < |entries[k].files| ==>
        entries[k].files[j].State() ==
          AfterPlan(old(entries[k].files[j].State()), entries[k].files[j].access, FolderArt(sv, v, band, target, entries[k]), band)
      invariant forall k, j :: i <= k < |entries| && 0 <= j < |entries[k].files| ==>
        entries[k].files[j].State() == old(entries[k].files[j].State())
    {
      assert entries[..i + 1][..i] == entries[..i];
      DisjointEntry(entries, i);
      var c := ProcessEntry(sv, v, entries[i], band, target);
      calls := calls + c;
    }
    assert entries[..|entries|] == entries;
  }

  /** One pass of `process_all_folders`' loop: the entry is processed when it is a
      selected directory. */
  method ProcessEntry(sv: Services, v: Variant, e: Entry, band: Option<string>, target: Option<string>)
    returns (calls: seq<Call>)
    requires Distinct(e.files)
    modifies set f | f in e.files
    ensures calls == (if e.isDir && EmbedSelects(v, target, e.name) then AlbumPlan(sv, v, band, e.name, Paths(e.files)).calls else [])
    ensures forall j :: 0 <= j < |e.files| ==>
      e.files[j].State() == AfterPlan(old(e.files[j].State()), e.files[j].access, FolderArt(sv, v, band, target, e), band)
  {
    calls := [];
    if e.isDir && EmbedSelects(v, target, e.name) {
      calls := ProcessAlbumFolder(sv, v, e, band);
    }
  }

  /** `clean_album_art(root, album_title)`: every file of every selected directory
      is cleaned on its own; every other entry is left alone. */
  method CleanAlbumArt(v: Variant, entries: seq<Entry>, title: string)
    requires Disjoint(entries)
    modifies Footprint(entries)
    ensures forall k, j :: 0 <= k < |entries| && 0 <= j < |entries[k].files| ==>
      entries[k].files[j].State() ==
        (if entries[k].isDir && CleanSelects(v, title, entries[k].name)
         then Tags.Clean(old(entries[k].files[j].State()), entries[k].files[j].access).track
         else old(entries[k].files[j].State()))
  {
    for i := 0 to |entries|
      invariant forall k, j :: 0 <= k < i && 0 <= j < |entries[k].files| ==>
        entries[k].files[j].State() ==
          (if entries[k].isDir && CleanSelects(v, title, entries[k].name)
           then Tags.Clean(old(entries[k].files[j].State()), entries[k].files[j].access).track
           else old(entries[k].files[j].State()))
      invariant forall k, j :: i <= k < |entries| && 0 <= j < |entries[k].files| ==>
        entries[k].files[j].State() == old(entries[k].files[j].State())
    {
      var e := entries[i];
      DisjointEntry(entries, i);
      if e.isDir && CleanSelects(v, title, e.name) {
        CleanEach(e.files);
      }
    }
  }

  /** The per-folder cleaning loop: a file that fails or has no tags does not stop
      the others. */
  method CleanEach(files: seq<TrackFile>)
    requires Distinct(files)
    modifies set f | f in files
    ensures forall i :: 0 <= i < |files| ==> files[i].State() == Tags.Clean(old(files[i].State()), files[i].access).track
  {
    for i := 0 to |files|
      invariant forall k :: 0 <= k < i ==> files[k].State() == Tags.Clean(old(files[k].State()), files[k].access).track
      invariant forall k :: i <= k < |files| ==> files[k].State() == old(files[k].State())
    {
      var _ := files[i].CleanArtwork();
    }
  }

  /** `band_name or ""`. */
  function BandOrEmpty(band: Option<string>): string {
    if Truthy(band) then band.value else ""
  }

  /** The calls `process_files_individually` makes, file after file. */
  function FilesCalls(sv: Services, band: Option<string>, files: seq<TrackFile>): seq<Call>
    decreases |files|
  {
    if files == [] then []
    else
      var f := files[|files| - 1];
      FilesCalls(sv, band, files[..|files| - 1]) + FilePlan(sv, band, f.name, f.path).calls
  }

  /** One pass of the `process_files_individually` loop. */
  method ProcessFile(sv: Services, mp3: TrackFile, band: Option<string>) returns (calls: seq<Call>)
    modifies mp3
    ensures calls == FilePlan(sv, band, mp3.name, mp3.path).calls
    ensures mp3.State() == AfterPlan(old(mp3.State()), mp3.access, FilePlan(sv, band, mp3.name, mp3.path).art, Some(BandOrEmpty(band)))
  {
    var res := FileResolve(sv, band, mp3.name, mp3.path);
    calls := res.calls;
    if Truthy(res.url) {
      var artData := sv.download(res.url.value);
      calls := calls + [Download(res.url.value)];
      if HasBytes(artData) {
        var _ := mp3.EmbedArtwork(artData, Some(BandOrEmpty(band)));
      }
    }
  }

  /** A file's tags after its own plan. */
  function FileAfter(sv: Services, band: Option<string>, f: TrackFile, t: Track): Track {
    AfterPlan(t, f.access, FilePlan(sv, band, f.name, f.path).art, Some(BandOrEmpty(band)))
  }

  /** One pass of the loop, on the `i`-th file of the list: no other file changes. */
  method ProcessFileAt(sv: Services, files: seq<TrackFile>, i: nat, band: Option<string>) returns (calls: seq<Call>)
    requires Distinct(files) && i < |files|
    modifies files[i]
    ensures calls == FilePlan(sv, band, files[i].name, files[i].path).calls
    ensures files[i].State() == FileAfter(sv, band, files[i], old(files[i].State()))
    ensures forall k :: 0 <= k < |files| && k != i ==> files[k].State() == old(files[k].State())
  {
    calls := ProcessFile(sv, files[i], band);
  }

  /** `process_files_individually(root, band_name)` over the top-level mp3 files. */
  method ProcessFilesIndividually(sv: Services, files: seq<TrackFile>, band: Option<string>) returns (calls: seq<Call>)
    requires Distinct(files)
    modifies set f | f in files
    ensures calls == FilesCalls(sv, band, files)
    ensures forall i :: 0 <= i < |files| ==>
      files[i].State() ==
        AfterPlan(old(files[i].State()), files[i].access, FilePlan(sv, band, files[i].name, files[i].path).art, Some(BandOrEmpty(band)))
  {
    calls := [];
    for i := 0 to |files|
      invariant calls == FilesCalls(sv, band, files[..i])
      invariant forall k :: 0 <= k < i ==> files[k].State() == FileAfter(sv, band, files[k], old(files[k].State()))
      invariant forall k :: i <= k < |files| ==> files[k].State() == old(files[k].State())
    {
      assert files[..i + 1][..i] == files[..i];
      var c := ProcessFileAt(sv, files, i, band);
      calls := calls + c;
    }
    assert files[..|files|] == files;
  }

  /** Without a band, file mode writes nothing into any file. */
  lemma FileModeWithoutBandWritesNothing(sv: Services, files: seq<TrackFile>, band: Option<string>)
    requires !Truthy(band)
    ensures forall i :: 0 <= i < |files| ==> FilePlan(sv, band, files[i].name, files[i].path).art == None
  {
    forall i | 0 <= i < |files|
      ensures FilePlan(sv, band, files[i].name, files[i].path).art == None
    {
      FileModeWithoutBand(sv, band, files[i].name, files[i].path);
    }
  }

  /** The script's `main` after argument parsing. */
  method RunScript(sv: Services, entries: seq<Entry>, cleanAlbum: Option<string>, band: Option<string>, album: Option<string>)
    returns (calls: seq<Call>)
    requires Disjoint(entries)
    modifies Footprint(entries)
    ensures Dispatch(cleanAlbum, band, album) == UsageMessage ==>
      calls == [] && forall k, j :: 0 <= k < |entries| && 0 <= j < |entries[k].files| ==>
        entries[k].files[j].State() == old(entries[k].files[j].State())
    ensures Dispatch(cleanAlbum, band, album).CleanCommand? ==>
      calls == [] && forall k, j :: 0 <= k < |entries| && 0 <= j < |entries[k].files| ==>
        entries[k].files[j].State() ==
          (if entries[k].isDir && CleanSelects(Script, cleanAlbum.value, entries[k].name)
           then Tags.Clean(old(entries[k].files[j].State()), entries[k].files[j].access).track
           else old(entries[k].files[j].State()))
    ensures Dispatch(cleanAlbum, band, album).EmbedCommand? ==>
      calls == AllFoldersCalls(sv, Script, band, album, entries) && forall k, j :: 0 <= k < |entries| && 0 <= j < |entries[k].files| ==>
        entries[k].files[j].State() ==
          AfterPlan(old(entries[k].files[j].State()), entries[k].files[j].access, FolderArt(sv, Script, band, album, entries[k]), band)
  {
    calls := [];
    match Dispatch(cleanAlbum, band, album)
    case CleanCommand(title) =>
      CleanAlbumArt(Script, entries, title);
    case EmbedCommand(b, a) =>
      calls := ProcessAllFolders(sv, Script, entries, Some(b), a);
    case UsageMessage =>
  }
}
