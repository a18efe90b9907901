/** The tag-writing policy of `embed_artwork` and the per-file step of
    `clean_album_art`, over an abstract tag state: the artist text the tag
    library reports and the list of ID3 frames. Which library calls succeed on a
    file is an input. */
module Tags {
  import opened Text

  newtype byte = x: int | 0 <= x < 256

  type Bytes = seq<byte>

  /** `if not image_data`: `None` and empty bytes are both false. */
  predicate HasBytes(b: Option<Bytes>) {
    b.Some? && b.value != []
  }

  /** An attached picture (APIC) or any other ID3 frame, which is kept as it is. */
  datatype Frame =
    | Apic(encoding: int, mime: string, picType: int, desc: string, data: Bytes)
    | Other(id: string, body: Bytes)

  /** The fields a library fills in when it writes a picture. */
  datatype Style = Style(encoding: int, mime: string, picType: int, desc: string)

  /** The picture the fallback writes: UTF-8 text, `image/jpeg`, front cover, `Cover`. */
  const MutagenStyle: Style := Style(3, "image/jpeg", 3, "Cover")

  function Picture(s: Style, data: Bytes): Frame {
    Apic(s.encoding, s.mime, s.picType, s.desc, data)
  }

  /** One mp3 file: the artist text `str(f['artist'])` and its ID3 frames, `None`
      when the file has no ID3 tag at all. */
  datatype Track = Track(artist: string, frames: Option<seq<Frame>>)

  /** How the libraries fare on one file: whether music_tag loads and saves it,
      whether mutagen does, and the picture fields music_tag chooses. */
  datatype Access = Access(musicTagWorks: bool, mutagenWorks: bool, musicTagStyle: Style)

  function FramesOf(t: Track): seq<Frame> {
    if t.frames.Some? then t.frames.value else []
  }

  /** The APIC frames, in order. */
  function Pictures(fs: seq<Frame>): (r: seq<Frame>)
    ensures |r| <= |fs|
    ensures forall k :: 0 <= k < |r| ==> r[k].Apic?
    ensures (forall k :: 0 <= k < |fs| ==> fs[k].Apic?) ==> r == fs
    decreases |fs|
  {
    if fs == [] then []
    else if fs[0].Apic? then [fs[0]] + Pictures(fs[1..])
    else Pictures(fs[1..])
  }

  /** `tags.delall("APIC")`: the frames that are not pictures, in order. */
  function WithoutPictures(fs: seq<Frame>): (r: seq<Frame>)
    ensures |r| <= |fs|
    ensures forall k :: 0 <= k < |r| ==> r[k].Other?
    ensures (forall k :: 0 <= k < |fs| ==> fs[k].Other?) ==> r == fs
    decreases |fs|
  {
    if fs == [] then []
    else if fs[0].Apic? then WithoutPictures(fs[1..])
    else [fs[0]] + WithoutPictures(fs[1..])
  }

  /** `f['artwork'].value is not None`. */
  predicate HasArt(t: Track) {
    Pictures(FramesOf(t)) != []
  }

  /** `band_name.lower() in current_artist`. */
  predicate ArtistMatches(band: string, artist: string) {
    Contains(Lower(artist), Lower(band))
  }

  /** Every earlier picture removed and one picture added at the end. */
  function SetPicture(fs: seq<Frame>, s: Style, data: Bytes): seq<Frame> {
    WithoutPictures(fs) + [Picture(s, data)]
  }

  lemma {:induction false} PicturesAppend(a: seq<Frame>, b: seq<Frame>)
    ensures Pictures(a + b) == Pictures(a) + Pictures(b)
    ensures WithoutPictures(a + b) == WithoutPictures(a) + WithoutPictures(b)
    decreases |a|
  {
    if a == [] {
      assert a + b == b;
    } else {
      assert (a + b)[0] == a[0];
      assert (a + b)[1..] == a[1..] + b;
      PicturesAppend(a[1..], b);
    }
  }

  /** Together the two selections are a split of the frames: each frame lands in
      exactly one of them, as often as it occurs. */
  lemma {:induction false} PicturesSplit(fs: seq<Frame>)
    ensures multiset(Pictures(fs)) + multiset(WithoutPictures(fs)) == multiset(fs)
    ensures |Pictures(fs)| + |WithoutPictures(fs)| == |fs|
    ensures forall f :: f in Pictures(fs) <==> f in fs && f.Apic?
    ensures forall f :: f in WithoutPictures(fs) <==> f in fs && f.Other?
    decreases |fs|
  {
    if fs != [] {
      PicturesSplit(fs[1..]);
      assert fs == [fs[0]] + fs[1..];
    }
  }

  lemma {:induction false} WithoutPicturesHasNone(fs: seq<Frame>)
    ensures Pictures(WithoutPictures(fs)) == []
    ensures WithoutPictures(WithoutPictures(fs)) == WithoutPictures(fs)
    decreases |fs|
  {
    if fs != [] {
      WithoutPicturesHasNone(fs[1..]);
      if !fs[0].Apic? {
        var w := WithoutPictures(fs[1..]);
        assert ([fs[0]] + w)[0] == fs[0];
        assert ([fs[0]] + w)[1..] == w;
      }
    }
  }

  /** After `SetPicture` the file holds exactly the one new picture, and every other
      frame is kept, in order. */
  lemma SetPictureResult(fs: seq<Frame>, s: Style, data: Bytes)
    ensures Pictures(SetPicture(fs, s, data)) == [Picture(s, data)]
    ensures WithoutPictures(SetPicture(fs, s, data)) == WithoutPictures(fs)
  {
    var p := Picture(s, data);
    PicturesAppend(WithoutPictures(fs), [p]);
    WithoutPicturesHasNone(fs);
    assert Pictures([p]) == [p] by {
      assert [p][1..] == [];
    }
    assert WithoutPictures([p]) == [] by {
      assert [p][1..] == [];
    }
  }

  /** Writing the same picture twice leaves the file as writing it once. */
  lemma SetPictureIdempotent(fs: seq<Frame>, s: Style, data: Bytes)
    ensures SetPicture(SetPicture(fs, s, data), s, data) == SetPicture(fs, s, data)
  {
    SetPictureResult(fs, s, data);
  }

  datatype EmbedOutcome = NoImage | Skipped | Replaced | Embedded | EmbeddedByMutagen | Failed

  datatype Embedding = Embedding(outcome: EmbedOutcome, track: Track)

  /** `embed_artwork` on one file. Without image data nothing is read. With
      music_tag working, a file that has art and whose artist contains the band is
      skipped, and any other file gets the picture. A music_tag failure, or
      `None.lower()` raising when there is no band and the file has art, hands
      the file to mutagen, which writes the picture without the skip test. If
      mutagen fails too the file is left as it was. */
  function Embed(t: Track, acc: Access, image: Option<Bytes>, band: Option<string>): (r: Embedding)
    ensures !HasBytes(image) ==> r == Embedding(NoImage, t)
    ensures r.outcome == Skipped <==>
      HasBytes(image) && acc.musicTagWorks && HasArt(t) && band.Some? && ArtistMatches(band.value, t.artist)
    ensures r.outcome == EmbeddedByMutagen <==>
      HasBytes(image) && (!acc.musicTagWorks || (HasArt(t) && band.None?)) && acc.mutagenWorks
    ensures r.outcome == NoImage <==> !HasBytes(image)
    ensures r.outcome == Replaced <==>
      HasBytes(image) && acc.musicTagWorks && HasArt(t) && band.Some? && !ArtistMatches(band.value, t.artist)
    ensures r.outcome == Embedded <==> HasBytes(image) && acc.musicTagWorks && !HasArt(t)
    ensures r.outcome == Failed <==>
      HasBytes(image) && (!acc.musicTagWorks || (HasArt(t) && band.None?)) && !acc.mutagenWorks
    ensures r.outcome in {NoImage, Skipped, Failed} ==> r.track == t
    ensures r.outcome in {Replaced, Embedded} ==>
      r.track == Track(t.artist, Some(SetPicture(FramesOf(t), acc.musicTagStyle, image.value)))
    ensures r.outcome == EmbeddedByMutagen ==>
      r.track == Track(t.artist, Some(SetPicture(FramesOf(t), MutagenStyle, image.value)))
  {
    if !HasBytes(image) then Embedding(NoImage, t)
    else if acc.musicTagWorks && !(HasArt(t) && band.None?) then
      if HasArt(t) && ArtistMatches(band.value, t.artist) then Embedding(Skipped, t)
      else
        var written := Track(t.artist, Some(SetPicture(FramesOf(t), acc.musicTagStyle, image.value)));
        Embedding(if HasArt(t) then Replaced else Embedded, written)
    else if acc.mutagenWorks then
      Embedding(EmbeddedByMutagen, Track(t.artist, Some(SetPicture(FramesOf(t), MutagenStyle, image.value))))
    else Embedding(Failed, t)
  }

  /** Whenever a picture is written, the file ends with exactly that one picture and
      all its other frames; the fallback's picture is the fixed `Cover` JPEG. */
  lemma EmbedWritesOnePicture(t: Track, acc: Access, image: Option<Bytes>, band: Option<string>)
    requires Embed(t, acc, image, band).outcome in {Replaced, Embedded, EmbeddedByMutagen}
    ensures HasBytes(image)
    ensures Embed(t, acc, image, band).track.artist == t.artist
    ensures Pictures(FramesOf(Embed(t, acc, image, band).track)) ==
      [Picture(if Embed(t, acc, image, band).outcome == EmbeddedByMutagen then MutagenStyle else acc.musicTagStyle, image.value)]
    ensures WithoutPictures(FramesOf(Embed(t, acc, image, band).track)) == WithoutPictures(FramesOf(t))
  {
    SetPictureResult(FramesOf(t), MutagenStyle, image.value);
    SetPictureResult(FramesOf(t), acc.musicTagStyle, image.value);
  }

  /** With an empty band every file that already has art is skipped, whatever its
      artist. */
  lemma EmptyBandSkipsAnyArt(t: Track, acc: Access, image: Option<Bytes>)
    requires HasBytes(image) && acc.musicTagWorks && HasArt(t)
    ensures Embed(t, acc, image, Some("")).outcome == Skipped
  {
    assert StartsWith(Lower(t.artist), Lower(""));
  }

  /** The fallback does not look at the artist: a file that music_tag would have
      skipped is overwritten when music_tag fails. */
  lemma FallbackIgnoresArtist(t: Track, acc: Access, image: Option<Bytes>, band: string)
    requires HasBytes(image) && !acc.musicTagWorks && acc.mutagenWorks
    requires HasArt(t) && ArtistMatches(band, t.artist)
    ensures Embed(t, acc, image, Some(band)).outcome == EmbeddedByMutagen
    ensures Pictures(FramesOf(Embed(t, acc, image, Some(band)).track)) == [Picture(MutagenStyle, image.value)]
  {
    SetPictureResult(FramesOf(t), MutagenStyle, image.value);
  }

  /** Running the embedder again with the same band skips a file it has just
      written through music_tag, when the file's artist contains the band. */
  lemma EmbedAgainSkips(t: Track, acc: Access, image: Option<Bytes>, image2: Option<Bytes>, band: string)
    requires Embed(t, acc, image, Some(band)).outcome in {Replaced, Embedded}
    requires ArtistMatches(band, t.artist) && HasBytes(image2)
    ensures Embed(Embed(t, acc, image, Some(band)).track, acc, image2, Some(band)).outcome == Skipped
  {
    SetPictureResult(FramesOf(t), acc.musicTagStyle, image.value);
  }

  datatype CleanOutcome = Removed | NoTags | CleanFailed

  datatype Cleaning = Cleaning(outcome: CleanOutcome, track: Track)

  /** One file of `clean_album_art`: a file mutagen cannot open is left alone, a
      file without tags (or with an empty tag) is left alone, and otherwise every
      picture is deleted. */
  function Clean(t: Track, acc: Access): (r: Cleaning)
    ensures r.outcome == Removed <==> acc.mutagenWorks && FramesOf(t) != []
    ensures r.outcome == NoTags <==> acc.mutagenWorks && FramesOf(t) == []
    ensures r.outcome == CleanFailed <==> !acc.mutagenWorks
    ensures r.outcome != Removed ==> r.track == t
    ensures r.outcome == Removed ==> r.track == Track(t.artist, Some(WithoutPictures(FramesOf(t))))
  {
    if !acc.mutagenWorks then Cleaning(CleanFailed, t)
    else if FramesOf(t) == [] then Cleaning(NoTags, t)
    else Cleaning(Removed, Track(t.artist, Some(WithoutPictures(FramesOf(t)))))
  }

  /** After cleaning no picture is left, the other frames are all kept, and a second
      cleaning changes nothing. */
  lemma CleanRemovesEveryPicture(t: Track, acc: Access)
    requires acc.mutagenWorks
    ensures !HasArt(Clean(t, acc).track)
    ensures WithoutPictures(FramesOf(Clean(t, acc).track)) == WithoutPictures(FramesOf(t))
    ensures Clean(Clean(t, acc).track, acc).track == Clean(t, acc).track
  {
    WithoutPicturesHasNone(FramesOf(t));
    if FramesOf(t) == [] {
      assert Pictures([]) == [] && WithoutPictures([]) == [];
    }
  }

  /** Cleaning a file the embedder wrote gives back the file's other frames only:
      the picture written is gone. */
  lemma CleanUndoesEmbed(t: Track, acc: Access, image: Option<Bytes>, band: Option<string>)
    requires Embed(t, acc, image, band).outcome in {Replaced, Embedded, EmbeddedByMutagen}
    requires acc.mutagenWorks
    ensures Clean(Embed(t, acc, image, band).track, acc).track == Track(t.artist, Some(WithoutPictures(FramesOf(t))))
  {
    SetPictureResult(FramesOf(t), MutagenStyle, image.value);
    SetPictureResult(FramesOf(t), acc.musicTagStyle, image.value);
  }
}
