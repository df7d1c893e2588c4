/** The ID3 frames written onto the MP3 file (mp3m4a.py:27-34). The tag
    library loads the file's existing frames into a dictionary keyed by
    frame id; the code assigns seven keys, one statement each, and leaves
    every other key as it was loaded. */
module Id3Frames {
  import opened Wrappers
  import opened Mp4Metadata
  import Decimal

  /** The text-encoding byte the code passes to every frame (3: UTF-8). */
  const Utf8: int := 3
  /** The language code of the comment frame. */
  const CommentLang: string := "eng"

  /** A frame value: a text frame (TIT2, TPE1, ...), a comment frame (COMM,
      whose description the code leaves at the library's default ""), or
      any other frame already in the file, kept as opaque bytes. */
  datatype Frame =
    | TextFrame(encoding: int, text: string)
    | CommentFrame(encoding: int, lang: string, desc: string, text: string)
    | OtherFrame(data: seq<bv8>)

  type FrameMap = map<string, Frame>

  /** The seven keys the code assigns. */
  const MetadataKeys: set<string> := {"TIT2", "TPE1", "TALB", "TCON", "TRCK", "TYER", "COMM"}

  /** The seven frames lines 28-34 assign, keyed as the code keys them.
      TRCK holds str(track); TYER holds str(year), which is the year string
      itself since the atom holds text. */
  function MetadataFrames(m: Metadata): (f: FrameMap)
    ensures f.Keys == MetadataKeys
  {
    map["TIT2" := TextFrame(Utf8, m.title),
        "TPE1" := TextFrame(Utf8, m.artist),
        "TALB" := TextFrame(Utf8, m.album),
        "TCON" := TextFrame(Utf8, m.genre),
        "TRCK" := TextFrame(Utf8, Decimal.IntToString(m.track)),
        "TYER" := TextFrame(Utf8, m.year),
        "COMM" := CommentFrame(Utf8, CommentLang, "", m.comment)]
  }

  /** The frame map after lines 28-34 ran on the loaded frames, one
      assignment after the other. */
  function Tagged(loaded: FrameMap, m: Metadata): FrameMap {
    loaded["TIT2" := TextFrame(Utf8, m.title)]
          ["TPE1" := TextFrame(Utf8, m.artist)]
          ["TALB" := TextFrame(Utf8, m.album)]
          ["TCON" := TextFrame(Utf8, m.genre)]
          ["TRCK" := TextFrame(Utf8, Decimal.IntToString(m.track))]
          ["TYER" := TextFrame(Utf8, m.year)]
          ["COMM" := CommentFrame(Utf8, CommentLang, "", m.comment)]
  }

  /** The seven assignments amount to laying the seven metadata frames over
      the loaded map. */
  lemma TaggedOverlays(loaded: FrameMap, m: Metadata)
    ensures Tagged(loaded, m) == loaded + MetadataFrames(m)
  {
  }

  /** After the update each of the seven keys holds its field, encoded as
      UTF-8, whatever it held before; every other loaded key keeps its
      frame; no other key appears. */
  lemma TaggedFrames(loaded: FrameMap, m: Metadata)
    ensures Tagged(loaded, m).Keys == loaded.Keys + MetadataKeys
    ensures Tagged(loaded, m)["TIT2"] == TextFrame(Utf8, m.title)
    ensures Tagged(loaded, m)["TPE1"] == TextFrame(Utf8, m.artist)
    ensures Tagged(loaded, m)["TALB"] == TextFrame(Utf8, m.album)
    ensures Tagged(loaded, m)["TCON"] == TextFrame(Utf8, m.genre)
    ensures Tagged(loaded, m)["TRCK"] == TextFrame(Utf8, Decimal.IntToString(m.track))
    ensures Tagged(loaded, m)["TYER"] == TextFrame(Utf8, m.year)
    ensures Tagged(loaded, m)["COMM"] == CommentFrame(Utf8, "eng", "", m.comment)
    ensures forall k :: k in loaded && k !in MetadataKeys ==> Tagged(loaded, m)[k] == loaded[k]
  {
  }

  /** The update overwrites: what was loaded under the seven keys makes no
      difference to the result. */
  lemma TaggedOverwrites(f: FrameMap, g: FrameMap, m: Metadata)
    requires f - MetadataKeys == g - MetadataKeys
    ensures Tagged(f, m) == Tagged(g, m)
  {
    forall k | k in f - MetadataKeys
      ensures k in g - MetadataKeys && f[k] == g[k]
    {
      assert (f - MetadataKeys)[k] == (g - MetadataKeys)[k];
    }
    forall k | k in g - MetadataKeys
      ensures k in f - MetadataKeys
    {
      assert k in (f - MetadataKeys).Keys;
    }
  }

  /** Running the update a second time with the same metadata changes nothing. */
  lemma TaggedIdempotent(loaded: FrameMap, m: Metadata)
    ensures Tagged(Tagged(loaded, m), m) == Tagged(loaded, m)
  {
  }

  /** The metadata a frame map carries under the seven keys, read back the
      way the fields were written; None when a frame is missing or of the
      wrong kind, or TRCK is not a decimal number. */
  function ReadMetadata(f: FrameMap): Option<Metadata> {
    if && "TIT2" in f && f["TIT2"].TextFrame?
       && "TPE1" in f && f["TPE1"].TextFrame?
       && "TALB" in f && f["TALB"].TextFrame?
       && "TCON" in f && f["TCON"].TextFrame?
       && "TRCK" in f && f["TRCK"].TextFrame? && Decimal.ParseInt(f["TRCK"].text).Some?
       && "TYER" in f && f["TYER"].TextFrame?
       && "COMM" in f && f["COMM"].CommentFrame?
    then
      Some(Metadata(f["TIT2"].text, f["TPE1"].text, f["TALB"].text, f["TCON"].text,
                    Decimal.ParseInt(f["TRCK"].text).value, f["TYER"].text, f["COMM"].text))
    else None
  }

  /** Every field written by the update is recovered from the frames,
      whatever frames were loaded before it. */
  lemma ReadTagged(loaded: FrameMap, m: Metadata)
    ensures ReadMetadata(Tagged(loaded, m)) == Some(m)
  {
    Decimal.ParseIntOfIntToString(m.track);
  }

  /** The ID3 tag of the freshly exported MP3 (`id3.ID3(output_file)`): its
      frames, updated in place by assignment to keys. */
  class Id3Tags {
    var frames: FrameMap

    /** The tag as the library loaded it from the file. */
    constructor (loaded: FrameMap)
      ensures frames == loaded
    {
      frames := loaded;
    }

    /** `id3_tags[id] = frame`: the key now holds frame, replacing any
        previous value; no other key changes. */
    method SetFrame(id: string, frame: Frame)
      modifies this
      ensures frames == old(frames)[id := frame]
    {
      frames := frames[id := frame];
    }

    /** Lines 28-34, one assignment per frame. */
    method ApplyMetadata(m: Metadata)
      modifies this
      ensures frames == Tagged(old(frames), m)
    {
      SetFrame("TIT2", TextFrame(Utf8, m.title));
      SetFrame("TPE1", TextFrame(Utf8, m.artist));
      SetFrame("TALB", TextFrame(Utf8, m.album));
      SetFrame("TCON", TextFrame(Utf8, m.genre));
      SetFrame("TRCK", TextFrame(Utf8, Decimal.IntToString(m.track)));
      SetFrame("TYER", TextFrame(Utf8, m.year));
      SetFrame("COMM", CommentFrame(Utf8, CommentLang, "", m.comment));
    }
  }
}
