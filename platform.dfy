/** The calls the script makes into the operating system and into its
    audio and tag libraries. None of their code is part of this model: each
    is a field of `Library`, a total function, so the model only assumes
    that a call gives the same answer for the same arguments. */
module Platform {
  import opened Wrappers
  import opened Mp4Metadata
  import opened Id3Frames

  datatype Library = Library(
    /** os.path.join */
    join: (string, string) -> string,
    /** os.makedirs(path, exist_ok=True): false when it raises */
    makedirs: string -> bool,
    /** os.listdir: the entries in the order the system returns them, None when it raises */
    listdir: string -> Option<seq<string>>,
    /** MP4(input_file): the file's atoms, None when the file cannot be parsed */
    readMp4: string -> Option<Mp4Tags>,
    /** AudioSegment.from_file(input, format="m4a").export(output, format="mp3"): false when it raises */
    transcode: (string, string) -> bool,
    /** id3.ID3(output_file) right after input_file was exported to
        output_file: the frames of the file the export wrote, which may
        carry tags over from the input; None when it raises */
    loadId3: (string, string) -> Option<FrameMap>,
    /** id3_tags.save(output_file): false when it raises */
    saveId3: (string, FrameMap) -> bool)

  /** The exceptions that end a run; none is caught by the script. */
  datatype Failure =
    | CannotCreateDir(path: string)
    | CannotList(path: string)
    | CannotReadMp4(path: string)
    | EmptyAtom(atom: string)
    | CannotTranscode(input: string, output: string)
    | CannotLoadId3(path: string)
    | CannotSaveId3(path: string)
}
