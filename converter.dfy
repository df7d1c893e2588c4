/** convert_m4a_to_mp3 (mp3m4a.py:7-35): read the metadata, transcode the
    audio, then load, update and save the ID3 frames of the new file. */
module Converter {
  import opened Wrappers
  import opened Mp4Metadata
  import opened Id3Frames
  import opened Platform

  /** What converting input to output ends with: the frames saved on the
      output file, or the first exception raised. The metadata is read
      before the audio is touched, so an empty atom stops the conversion
      before any output file is written. */
  function Conversion(lib: Library, input: string, output: string): Result<FrameMap, Failure> {
    match lib.readMp4(input)
    case None => Err(CannotReadMp4(input))
    case Some(tags) =>
      match Extract(tags)
      case Err(atom) => Err(EmptyAtom(atom))
      case Ok(meta) =>
        if !lib.transcode(input, output) then Err(CannotTranscode(input, output))
        else
          match lib.loadId3(input, output)
          case None => Err(CannotLoadId3(output))
          case Some(loaded) =>
            var frames := Tagged(loaded, meta);
            if lib.saveId3(output, frames) then Ok(frames) else Err(CannotSaveId3(output))
  }

  /** The procedure itself; the frame update runs in place on an Id3Tags object. */
  method ConvertM4aToMp3(lib: Library, input: string, output: string) returns (r: Result<FrameMap, Failure>)
    ensures r == Conversion(lib, input, output)
  {
    var m4a := lib.readMp4(input);
    if m4a.None? {
      return Err(CannotReadMp4(input));
    }
    var extracted := Extract(m4a.value);
    if extracted.Err? {
      return Err(EmptyAtom(extracted.error));
    }
    var meta := extracted.value;
    var exported := lib.transcode(input, output);
    if !exported {
      return Err(CannotTranscode(input, output));
    }
    var loaded := lib.loadId3(input, output);
    if loaded.None? {
      return Err(CannotLoadId3(output));
    }
    var id3Tags := new Id3Tags(loaded.value);
    id3Tags.ApplyMetadata(meta);
    var saved := lib.saveId3(output, id3Tags.frames);
    if !saved {
      return Err(CannotSaveId3(output));
    }
    r := Ok(id3Tags.frames);
  }

  /** A successful conversion carries every field read from the input onto
      the output's frames verbatim (the track as its decimal string), keeps
      the frames the exported file already had under other keys, and
      happens only when every text atom was readable. */
  lemma ConversionCopiesMetadata(lib: Library, input: string, output: string)
    requires Conversion(lib, input, output).Ok?
    ensures lib.readMp4(input).Some? && Extract(lib.readMp4(input).value).Ok?
    ensures ReadMetadata(Conversion(lib, input, output).value) == Some(Extract(lib.readMp4(input).value).value)
    ensures lib.loadId3(input, output).Some?
    ensures forall k :: k in lib.loadId3(input, output).value && k !in MetadataKeys ==>
              Conversion(lib, input, output).value[k] == lib.loadId3(input, output).value[k]
  {
    var meta := Extract(lib.readMp4(input).value).value;
    ReadTagged(lib.loadId3(input, output).value, meta);
  }

  /** A text atom that is present with no values makes the conversion
      raise the empty-atom error, so the audio is never transcoded. */
  lemma ConversionFailsOnEmptyAtom(lib: Library, input: string, output: string, k: nat)
    requires lib.readMp4(input).Some? && k < |TextAtoms|
    requires TextAtoms[k] in lib.readMp4(input).value && lib.readMp4(input).value[TextAtoms[k]] == []
    ensures Conversion(lib, input, output).Err? && Conversion(lib, input, output).error.EmptyAtom?
  {
    ExtractSucceeds(lib.readMp4(input).value);
    assert !Readable(lib.readMp4(input).value, TextAtoms[k]);
  }
}
