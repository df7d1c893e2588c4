# mp3m4a in Dafny

A model of `mp3m4a.py`, a script that converts every `.m4a` file in a
directory to MP3 and copies seven metadata fields onto the new file's ID3
tag. The model covers the script's own logic:

- **Metadata extraction** (`convert_m4a_to_mp3`, lines 14-20). The seven
  fields are read from the MP4 atoms, with a default when an atom is
  absent. A text atom that is present with an empty list raises
  IndexError. A present but empty `©trk` atom gives track 0 (line 18).
- **The ID3 frame update** (lines 27-34). Seven assignments into the frame
  dictionary of the loaded tag, done in place.
- **The batch loop of `main`** (lines 53-69). Resolving `"."`, keeping the
  `.m4a` entries, deriving output names with `posixpath.splitext`,
  converting in listing order, printing one line per conversion, and
  stopping at the first exception.

The operating system, the MP4 parser, the audio transcoder and the ID3
reader and writer are fields of a `Library` value (`platform.dfy`). They
are total functions the model knows nothing about, except that the same
call gives the same answer. Reading the ID3 tag of the exported file
depends on both the input and the output path, because the export may
carry the input's tags over. Each exception these calls can raise is a
constructor of `Failure`.

Modules:

- `Wrappers`: `Option` and `Result`.
- `PathNames`: `str.endswith`, `str.rfind`, `posixpath.splitext` and
  `posixpath.basename`.
- `Decimal`: `str()` on ints and its inverse.
- `Mp4Metadata`: the atoms and the extraction.
- `Id3Frames`: the frame map and the `Id3Tags` class, which updates it in
  place.
- `Platform`: the library calls and the exceptions.
- `Converter`: `convert_m4a_to_mp3`, as a specification function
  `Conversion` and a method `ConvertM4aToMp3` proved equal to it.
- `Batch`: `main`. It has the specification functions `Jobs` and
  `Execute`, and the methods `RunMain`, `ConvertListing` and
  `ConvertEntry`, which are proved equal to them.

Three behaviours of the code that the model keeps:

- Output names come from `splitext` (line 67), so the entry `.m4a` gives
  `.m4a.mp3`, and `X.m4a` gives `X.mp3` only when `X` has a character
  other than '.'.
- A text atom present with an empty list raises IndexError (lines 14-17
  and 19-20). The conversion then stops before any audio is written.
- Only the seven assigned keys are overwritten (lines 28-34). Every other
  frame of the loaded tag is kept.

## Model

| member | source | states |
|---|---|---|
| PathNames.Splitext | mp3m4a.py:67 | `posixpath.splitext`: split at the last '.' of the last path component unless only dots precede it there; its properties are SplitextParts and Batch.OutputNameOfM4a |
| PathNames.Basename | mp3m4a.py:69 | `posixpath.basename`: everything after the last '/'; its properties are BasenameSuffix and Batch.BasenameAfterSep |
| PathNames.EndsWith | mp3m4a.py:65 | `str.endswith`: a literal, case-sensitive suffix test; its properties are Batch.JobsSelect and Batch.OtherEntriesIgnored |
| PathNames.LastIndexOf | mp3m4a.py:67-69 | `str.rfind` for one character, used inside splitext and basename: the result is -1 or an in-range index that holds the character; with LastIndexOfIsLast it is the last such index |
| PathNames.LastIndexOfIsLast | mp3m4a.py:67 | the index used by splitext and basename is -1 exactly when the character is absent, and no later position holds it |
| PathNames.SplitextParts | mp3m4a.py:67 | `splitext` returns a root and an extension that concatenate back to the path; the extension is empty, or one '.' followed by no '.' and no '/' |
| PathNames.BasenameSuffix | mp3m4a.py:69 | `basename` is a suffix of the path with no '/', and is either the whole path or follows a '/' |
| Decimal.IntToString | mp3m4a.py:32 | `str(track)`: a '-' before the decimal digits of a negative number; its properties are ParseIntOfIntToString and IntToStringInjective |
| Decimal.ParseIntOfIntToString | mp3m4a.py:32 | the TRCK text `str(track)` reads back as the track number, for negative numbers too |
| Decimal.IntToStringInjective | mp3m4a.py:32 | distinct track numbers give distinct TRCK texts |
| Mp4Metadata.Extract | mp3m4a.py:14-20 | the seven reads in line order, stopping at the first IndexError; its properties are ExtractSucceeds, ExtractFailsAt, ExtractReadsFields and ExtractFieldValues |
| Mp4Metadata.FirstText | mp3m4a.py:14-17 | `m4a.get(atom, [""])[0]`: "" when absent, IndexError on an empty list; stated through ExtractFailsAt and ExtractFieldValues |
| Mp4Metadata.TrackNumber | mp3m4a.py:18 | the first component of the first `©trk` value, or 0 when the atom is absent or empty; stated through ExtractFieldValues |
| Mp4Metadata.ExtractSucceeds | mp3m4a.py:14-20 | extraction succeeds if and only if no text atom is present with an empty list |
| Mp4Metadata.ExtractFailsAt | mp3m4a.py:14-20 | when atom k is the first unreadable one in reading order (title, artist, album, genre, year, comment), extraction raises on exactly that atom |
| Mp4Metadata.ExtractReadsFields | mp3m4a.py:14-20 | when every text atom is readable, the record holds each atom's first text ("" when absent) and the track number |
| Mp4Metadata.ExtractFieldValues | mp3m4a.py:14-20 | after a successful extraction: a text field is element 0 of its atom when the atom is present, and "" when it is absent; the track is the first component of the first `©trk` value, or 0 when that atom is absent or empty, with no error |
| Mp4Metadata.ExtractDefaults | mp3m4a.py:14-20 | a file with no atoms gives empty strings and track 0 |
| Mp4Metadata.ExtractAtomsOf | mp3m4a.py:14-20 | a file carrying every field as its atom gives back exactly those fields |
| Id3Frames.Tagged | mp3m4a.py:28-34 | the frame map after the seven assignments in order; its properties are TaggedOverlays, TaggedFrames, TaggedOverwrites, TaggedIdempotent and ReadTagged |
| Id3Frames.MetadataFrames | mp3m4a.py:28-34 | the frames assigned are keyed by exactly the seven ids TIT2, TPE1, TALB, TCON, TRCK, TYER and COMM |
| Id3Frames.TaggedOverlays | mp3m4a.py:27-34 | the seven assignments in sequence amount to laying the seven metadata frames over the loaded map |
| Id3Frames.TaggedFrames | mp3m4a.py:27-34 | after the update each of the seven keys holds its field with encoding 3 (TRCK as `str(track)`, COMM with language "eng"); every other loaded frame is kept; no other key appears |
| Id3Frames.TaggedOverwrites | mp3m4a.py:28-34 | what was loaded under the seven keys does not affect the result |
| Id3Frames.TaggedIdempotent | mp3m4a.py:28-34 | applying the update twice with the same fields equals applying it once |
| Id3Frames.ReadTagged | mp3m4a.py:28-34 | every field written by the update is recovered from the frames, whatever was loaded |
| Id3Frames.Id3Tags.constructor | mp3m4a.py:27 | the tag object starts with the frames loaded from the file |
| Id3Frames.Id3Tags.SetFrame | mp3m4a.py:28 | assigning a key replaces its value and changes no other key |
| Id3Frames.Id3Tags.ApplyMetadata | mp3m4a.py:28-34 | the in-place updates leave the frames equal to `Tagged(old frames, m)` |
| Converter.Conversion | mp3m4a.py:7-35 | the outcome of `convert_m4a_to_mp3`: the saved frames or the first exception, in the order read, extract, transcode, load, update, save; its properties are ConversionCopiesMetadata and ConversionFailsOnEmptyAtom |
| Converter.ConvertM4aToMp3 | mp3m4a.py:7-35 | the procedure (read atoms, extract, transcode, load the tag, update it in place, save) returns what `Conversion` specifies, including the first exception |
| Converter.ConversionCopiesMetadata | mp3m4a.py:12-35 | a successful conversion saves frames from which the extracted metadata reads back exactly, and keeps every other frame of the exported file |
| Converter.ConversionFailsOnEmptyAtom | mp3m4a.py:14-20 | a text atom present with an empty list makes the conversion fail with an empty-atom error |
| Batch.ResolveDir | mp3m4a.py:53-58 | "." becomes the current directory; any other argument is kept unchanged |
| Batch.RunResolvesCurrentDir | mp3m4a.py:53-58 | passing "." for either directory is the same as passing the current directory |
| Batch.OutputName | mp3m4a.py:67 | `os.path.splitext(filename)[0] + ".mp3"`; its properties are OutputNameOfM4a and OutputNameCollision |
| Batch.OutputNameOfM4a | mp3m4a.py:67 | for an entry X.m4a the output name is X.mp3 when X has a non-dot character, and X.m4a.mp3 otherwise |
| Batch.OutputNameCollision | mp3m4a.py:67 | output names are not injective: for any run of dots D, the entries D+"m4a" and D+"m4a.m4a" both give D+"m4a.mp3" |
| Batch.SongOutputName | mp3m4a.py:67 | song.m4a gives song.mp3 |
| Batch.JobFor | mp3m4a.py:66-69 | the job for an entry carries its name and reads `join(directory, name)`; for an entry "X.m4a" without '/' it writes `join(output_dir, X + ".mp3")` when X has a non-dot character and `join(output_dir, "X.m4a.mp3")` otherwise; its line is Report of the name and the output |
| Batch.Jobs | mp3m4a.py:64-65 | the jobs of a listing, one per ".m4a" entry in listing order, never more than the entries; its properties are JobsAppend and JobsSelect |
| Batch.JobsAppend | mp3m4a.py:64-65 | the jobs of a concatenated listing are the jobs of its parts, in order |
| Batch.JobsSelect | mp3m4a.py:64-65 | an entry gives a job if and only if its name ends with the case-sensitive ".m4a"; each job is derived from its own entry |
| Batch.OtherEntriesIgnored | mp3m4a.py:65 | "notes.txt" and "a.M4A" give no job |
| Batch.SongJobs | mp3m4a.py:64-65 | the listing song.m4a, notes.txt gives exactly the job for song.m4a |
| Batch.Report | mp3m4a.py:69 | the f-string `"Converted {filename} to {basename(output_file)}"`; its properties are BasenameAfterSep and ReportNamesOutput |
| Batch.BasenameAfterSep | mp3m4a.py:69 | the basename of a path ending in "/" + b, where b has no '/', is b |
| Batch.ReportNamesOutput | mp3m4a.py:67-69 | when join puts the name after a '/', the printed line is "Converted " + entry + " to " + the derived output name |
| Batch.Step | mp3m4a.py:68-69 | one job: after a successful conversion its line is printed and its frames saved; a failure records the exception; nothing happens after an exception; stated through ExecuteSingle and ListingStep |
| Batch.Execute | mp3m4a.py:64-69 | the jobs run in order; its properties are ExecuteRaises, ExecuteReports, ExecuteSavesOutputs, ExecuteSavesLastWriter, ExecuteOutcome and ExecuteAfterFailure |
| Batch.FirstFailure | mp3m4a.py:64-69 | the index of the first job whose conversion fails: every earlier job converts, and the job at that index, if there is one, fails |
| Batch.ExecuteSingle | mp3m4a.py:68-69 | one job that converts prints its line and saves its frames on its output |
| Batch.ExecuteRaises | mp3m4a.py:64-69 | the run raises the exception of the first failing job, and nothing when every job converts |
| Batch.ExecuteReports | mp3m4a.py:64-69 | the run prints exactly one line per job before the first failure, in job order, and none after it |
| Batch.OutputsMembers | mp3m4a.py:67 | a path is among the outputs of some jobs exactly when one of those jobs writes it |
| Batch.ExecuteSavesOutputs | mp3m4a.py:64-69 | the run saves frames on exactly the outputs of the jobs before the first failure |
| Batch.ExecuteSavesLastWriter | mp3m4a.py:64-69 | each saved output holds the frames of the last job before the first failure that wrote it; a later entry with the same output overwrites an earlier one |
| Batch.ExecuteOutcome | mp3m4a.py:64-69 | any run, described through its first failure: lines printed, whether it raised, and the outputs written |
| Batch.ExecuteAfterFailure | mp3m4a.py:64-69 | once a job has failed, later jobs change nothing |
| Batch.ListingStep | mp3m4a.py:64-69 | one more entry runs its job if it ends in ".m4a", and otherwise changes nothing |
| Batch.ListingStops | mp3m4a.py:64-69 | after an exception, the rest of the listing changes nothing |
| Batch.ListingAdvance | mp3m4a.py:64-69 | what one iteration does to the run over the first i entries gives the run over the first i + 1 |
| Batch.Run | mp3m4a.py:48-69 | `main` after argument parsing: resolve both directories, create the output directory, list the input directory, run the jobs; its properties are RunResolvesCurrentDir and, through ConvertListing, those of Execute |
| Batch.RunMain | mp3m4a.py:48-69 | `main` after argument parsing: resolves the directories, creates the output directory, lists the input directory and converts, and returns exactly `Run` |
| Batch.ConvertEntry | mp3m4a.py:65-69 | one loop iteration converts an ".m4a" entry and then reports it, records the exception if the conversion raises, and skips any other entry; the result is Step of the entry's job and its conversion |
| Batch.ConvertListing | mp3m4a.py:64-69 | the loop over the listing ends in the state `Execute` gives for the listing's jobs |
| Batch.SongExtract | mp3m4a.py:14-20 | a file with title "Test", artist "Artist" and track 3 extracts to those fields and defaults |
| Batch.SongReport | mp3m4a.py:69 | the line printed for song.m4a written to a path ending in "/song.mp3" is "Converted song.m4a to song.mp3" |
| Batch.SongFrames | mp3m4a.py:28-34 | those fields give TIT2 "Test", TPE1 "Artist" and TRCK "3" |
| Batch.SongConversion | mp3m4a.py:7-35 | converting that file saves the updated frames |
| Batch.SongJob | mp3m4a.py:66-69 | the job for song.m4a writes the output under "/song.mp3" and prints "Converted song.m4a to song.mp3" |
| Batch.SongScenario | mp3m4a.py:53-69 | a directory holding song.m4a and notes.txt: exactly one line is printed, nothing is raised, and exactly song.mp3 is written, with those frames |

## Left out

- Audio decoding and MP3 encoding (lines 23-24) are one foreign call, `Library.transcode`, which either succeeds or raises.
- MP4 atom parsing (line 12), ID3 loading (line 27) and ID3 serialisation (line 35) are foreign calls. Tags are modelled only as maps from atom names and frame ids to values.
- ID3 version conformance is not modelled. The script announces ID3v2.3, but it writes text encoding 3 (UTF-8), which only ID3v2.4 defines. Which version is written is decided inside the tag library.
- Argument parsing (lines 39-46) is left out: `RunMain` receives the two argument strings and the current directory.
- `print` is modelled as the sequence of lines in `BatchState.messages`.
- `os.makedirs`, `os.listdir` and `os.path.join` are uninterpreted library calls. The listing order is whatever `listdir` returns.
- The `©trk` values are modelled as (number, total) pairs, because the code indexes them that way (line 18). The text atoms are modelled as strings. `Mp4Tags` restricts the atom map to those shapes.
- Files on disk are not modelled. `BatchState.saved` records only the saves that succeeded: the frames each successful conversion saved on its output path. The MP3 that the export writes (lines 23-24) is not recorded. So when a job fails after its export, `saved` does not show the untagged file left on disk, and it still shows an earlier job's frames on that path if the two jobs share an output (see `OutputNameCollision`). The audio bytes are not modelled either.
- The file system is not modelled as state. Each library call's answer depends only on its arguments. `loadId3` takes the input path as well as the output path, because the exported file's tags can come from the input. A file that one job writes is not seen by a later call, so if two entries share an output name, the second entry's reads do not see the first entry's file.
- Exceptions are modelled by which call raised them, not by their Python class or message.
