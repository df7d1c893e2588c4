/** The metadata read from an M4A file (mp3m4a.py:14-20): seven fields
    taken from the file's MP4 atoms, each with a default when the atom is
    absent. The atoms themselves are parsed by a library this model does
    not include; here they are an abstract map from atom name to values. */
module Mp4Metadata {
  import opened Wrappers

  /** One value of an atom: the text atoms hold strings, and the track
      atom is indexed by the code as a (number, total) pair. */
  datatype AtomValue = Text(text: string) | Pair(first: int, second: int)

  type TagMap = map<string, seq<AtomValue>>

  /** The atom names the code reads ('\xa9nam' and so on). */
  const TitleAtom: string := "\U{A9}nam"
  const ArtistAtom: string := "\U{A9}ART"
  const AlbumAtom: string := "\U{A9}alb"
  const GenreAtom: string := "\U{A9}gen"
  const TrackAtom: string := "\U{A9}trk"
  const YearAtom: string := "\U{A9}day"
  const CommentAtom: string := "\U{A9}cmt"

  /** The text atoms, in the order the code reads them. */
  const TextAtoms: seq<string> := [TitleAtom, ArtistAtom, AlbumAtom, GenreAtom, YearAtom, CommentAtom]

  predicate AllText(tags: TagMap, atom: string) {
    atom in tags ==> forall i :: 0 <= i < |tags[atom]| ==> tags[atom][i].Text?
  }

  /** What the code takes for granted about the atoms it reads: text atoms
      hold strings and the track atom holds pairs. */
  predicate WellTyped(tags: TagMap) {
    && (forall k :: 0 <= k < |TextAtoms| ==> AllText(tags, TextAtoms[k]))
    && (TrackAtom in tags ==> forall i :: 0 <= i < |tags[TrackAtom]| ==> tags[TrackAtom][i].Pair?)
  }

  type Mp4Tags = tags: TagMap | WellTyped(tags) witness map[]

  datatype Metadata = Metadata(
    title: string,
    artist: string,
    album: string,
    genre: string,
    track: int,
    year: string,
    comment: string)

  /** `m4a.get(atom, [""])[0]` cannot fail on this atom: it is absent, or
      its list of values is not empty. */
  predicate Readable(tags: TagMap, atom: string) {
    atom !in tags || |tags[atom]| > 0
  }

  /** `m4a.get(atom, [""])[0]`: the first value of the atom, "" when the
      atom is absent, and an IndexError (carrying the atom) when the atom is
      present with no values. */
  function FirstText(tags: Mp4Tags, atom: string): Result<string, string>
    requires atom in TextAtoms
  {
    if atom !in tags then Ok("")
    else if |tags[atom]| == 0 then Err(atom)
    else Ok(tags[atom][0].text)
  }

  /** `m4a.get('\xa9trk', [0])[0][0] if m4a.get('\xa9trk') else 0`: the
      first component of the first value, or 0 when the atom is absent or
      empty. Never fails. */
  function TrackNumber(tags: Mp4Tags): int {
    if TrackAtom in tags && |tags[TrackAtom]| > 0 then tags[TrackAtom][0].first else 0
  }

  /** The text a readable atom yields. */
  function TextOr(tags: Mp4Tags, atom: string): string
    requires atom in TextAtoms && Readable(tags, atom)
  {
    if atom in tags then tags[atom][0].text else ""
  }

  /** Lines 14-20 in order: title, artist, album, genre, track, year,
      comment. The first text atom (in that order) that is present but
      empty raises IndexError and the remaining fields are not read. */
  function Extract(tags: Mp4Tags): Result<Metadata, string> {
    var title :- FirstText(tags, TitleAtom);
    var artist :- FirstText(tags, ArtistAtom);
    var album :- FirstText(tags, AlbumAtom);
    var genre :- FirstText(tags, GenreAtom);
    var track := TrackNumber(tags);
    var year :- FirstText(tags, YearAtom);
    var comment :- FirstText(tags, CommentAtom);
    Ok(Metadata(title, artist, album, genre, track, year, comment))
  }

  /** Every text atom is readable: extraction succeeds with the first text
      of each atom ("" when absent) and the track number. */
  lemma ExtractReadsFields(tags: Mp4Tags)
    requires forall k :: 0 <= k < |TextAtoms| ==> Readable(tags, TextAtoms[k])
    ensures Extract(tags) == Ok(Metadata(
              TextOr(tags, TitleAtom), TextOr(tags, ArtistAtom), TextOr(tags, AlbumAtom),
              TextOr(tags, GenreAtom), TrackNumber(tags), TextOr(tags, YearAtom),
              TextOr(tags, CommentAtom)))
  {
    assert Readable(tags, TextAtoms[0]) && Readable(tags, TextAtoms[1]) && Readable(tags, TextAtoms[2]);
    assert Readable(tags, TextAtoms[3]) && Readable(tags, TextAtoms[4]) && Readable(tags, TextAtoms[5]);
  }

  /** Some text atom is unreadable: extraction fails with the first such
      atom, in reading order. */
  lemma ExtractFailsAt(tags: Mp4Tags, k: nat)
    requires k < |TextAtoms| && !Readable(tags, TextAtoms[k])
    requires forall j :: 0 <= j < k ==> Readable(tags, TextAtoms[j])
    ensures Extract(tags) == Err(TextAtoms[k])
  {
    if k == 0 {
    } else if k == 1 {
      assert Readable(tags, TextAtoms[0]);
    } else if k == 2 {
      assert Readable(tags, TextAtoms[0]) && Readable(tags, TextAtoms[1]);
    } else if k == 3 {
      assert Readable(tags, TextAtoms[0]) && Readable(tags, TextAtoms[1]) && Readable(tags, TextAtoms[2]);
    } else if k == 4 {
      assert Readable(tags, TextAtoms[0]) && Readable(tags, TextAtoms[1]) && Readable(tags, TextAtoms[2]);
      assert Readable(tags, TextAtoms[3]);
    } else {
      assert Readable(tags, TextAtoms[0]) && Readable(tags, TextAtoms[1]) && Readable(tags, TextAtoms[2]);
      assert Readable(tags, TextAtoms[3]) && Readable(tags, TextAtoms[4]);
    }
  }

  lemma ExtractOkReadable(tags: Mp4Tags, k: nat)
    requires Extract(tags).Ok? && k < |TextAtoms|
    ensures Readable(tags, TextAtoms[k])
  {
    assert FirstText(tags, TextAtoms[k]).Ok?;
  }

  /** The text field read from TextAtoms[k]. */
  function TextField(m: Metadata, k: nat): string
    requires k < |TextAtoms|
  {
    [m.title, m.artist, m.album, m.genre, m.year, m.comment][k]
  }

  /** After a successful extraction each text field is element 0 of its
      atom when the atom is present (which is then not empty) and "" when
      it is absent; the track is the first component of the first track
      value, or 0 when that atom is absent or empty. */
  lemma ExtractFieldValues(tags: Mp4Tags, k: nat)
    requires Extract(tags).Ok? && k < |TextAtoms|
    ensures TextAtoms[k] !in tags ==> TextField(Extract(tags).value, k) == ""
    ensures TextAtoms[k] in tags ==>
              |tags[TextAtoms[k]]| > 0 && TextField(Extract(tags).value, k) == tags[TextAtoms[k]][0].text
    ensures Extract(tags).value.track
         == if TrackAtom in tags && |tags[TrackAtom]| > 0 then tags[TrackAtom][0].first else 0
  {
    ExtractSucceeds(tags);
    ExtractReadsFields(tags);
  }

  /** Extraction succeeds exactly when every text atom is readable. */
  lemma ExtractSucceeds(tags: Mp4Tags)
    ensures Extract(tags).Ok? <==> forall k :: 0 <= k < |TextAtoms| ==> Readable(tags, TextAtoms[k])
  {
    if forall k :: 0 <= k < |TextAtoms| ==> Readable(tags, TextAtoms[k]) {
      ExtractReadsFields(tags);
    }
    if Extract(tags).Ok? {
      forall k | 0 <= k < |TextAtoms| ensures Readable(tags, TextAtoms[k]) {
        ExtractOkReadable(tags, k);
      }
    }
  }

  /** A file whose atoms are all absent yields empty text and track 0. */
  lemma ExtractDefaults()
    ensures Extract(map[]) == Ok(Metadata("", "", "", "", 0, "", ""))
  {
  }

  /** The atoms a file carrying exactly the fields of m would have. */
  function AtomsOf(m: Metadata): (tags: Mp4Tags)
    ensures forall k :: 0 <= k < |TextAtoms| ==> TextAtoms[k] in tags && |tags[TextAtoms[k]]| == 1
  {
    map[TitleAtom := [Text(m.title)], ArtistAtom := [Text(m.artist)],
        AlbumAtom := [Text(m.album)], GenreAtom := [Text(m.genre)],
        TrackAtom := [Pair(m.track, 0)], YearAtom := [Text(m.year)],
        CommentAtom := [Text(m.comment)]]
  }

  /** Extraction reads back every field of a file that carries them all. */
  lemma ExtractAtomsOf(m: Metadata)
    ensures Extract(AtomsOf(m)) == Ok(m)
  {
  }
}
