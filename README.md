# music_librarian — a Dafny model of its core

music_librarian prepares an audio collection for a portable player. Lossless
tracks (`.flac`, `.wav`) are transcoded to Opus. Lossy tracks are copied and
their tags are overridden from a per-album `metadata.txt` file. This project
models and proves the logic around that work:

- **`metadata.txt` parser** (`CliMetadata`). It is the line-by-line state
  machine of `parse_metadata_file`, with `current_file` and
  `in_malformed_section`. The per-line rule is a function `Step`, and
  `Run` folds it over the lines. The method `ParseMetadataFile` keeps the
  source's loop and is proved equal to that fold. The lemmas state the
  grammar's promises:
  - comments and blank lines are neutral;
  - a pair is split at its first colon;
  - a pair lands in the open section, or in the album scope when no named
    section is open;
  - a repeated header clears nothing;
  - a malformed header silences every line up to the next valid header.
- **Reference validator** (`CliMetadata.ValidateMetadataFiles`). It finds
  the first file name, in insertion order, that is not among the available
  names.
- **Cover-art selection** (`CliCoverArt`). The three nested loops of
  `find_cover_art` are proved equal to a priority rule: a match for an
  earlier prefix beats any later prefix, and within one prefix the earliest
  name wins.
- **Path helpers** (`Paths`, `CliPaths`). POSIX `pathlib` is modelled as a
  root flag plus a list of parts. This covers parsing and printing, `name`,
  `suffix` and `with_suffix` as in Python 3.12, `relative_to` and `/`.
  `resolve_destination_path` re-roots a directory, and
  `resolve_output_filename` swaps the final suffix for `.opus`.
- **Tag tables** (`MetadataHandler`). This part covers:
  - `supports_format`;
  - the checks made before any tag access (existence, then the extension,
    then loading);
  - the apply and read functions for Ogg Vorbis, Opus, MP3 and MP4.

  A tag container is a class whose map field the apply methods update in
  place. The read methods loop over the read table. A generic layer proves
  once, for any injective table, what applying and reading do. The
  per-format round trips follow from it.
- **Per-file dispatch** (`AudioProcessor`). This part covers
  `get_output_filename` and `process_audio_file`. The copy and transcode
  steps are sequences of effects; `if metadata:` decides whether the copy
  step applies tags. A `World` parameter decides which effect raises, and
  with what message.
- **Audio-file discovery** (`FileDiscovery`). `find_audio_files` checks the
  root, then filters a given walk listing by the final suffix.

Python semantics are written out where they matter:

- `str.strip` removes exactly the `str.isspace` code points;
- `split(':', 1)` splits at the first colon;
- `if current_file:` and `if metadata:` are false for `""`, for `{}` and
  for None;
- `int()` accepts an optional sign and surrounding whitespace. That
  whitespace is `str.isspace` without U+001C..U+001F: `strip()` removes
  those four separators, but `int()` rejects them. `int()` also rejects
  more than 4300 digits, leading zeros included, which is Python's default
  `sys.get_int_max_str_digits()`;
- `os.path.dirname` keeps everything before the last `/`, with trailing
  slashes removed unless the whole head is slashes.

Where the documented behaviour and the code differ, the model follows the
code:

- The validator compares names by plain string equality. It does not apply
  Unicode normalisation.
- `find_audio_files` accepts only `.flac` and `.wav`, not lossy extensions.
- For a type other than `"lossless"`, `get_output_filename` returns
  `str(Path(p))`. That is `p` in pathlib's normal form (`a//b/` becomes
  `a/b`), not `p` verbatim. `GetOutputFilenameKeepsNormalName` states
  that a name already in that form comes back unchanged.
- The transcode step imports `build_opusenc_command` from the
  command-line module, and `music_librarian/cli.py` does not define it.
  The import is therefore an effect of its own, `ImportEncoderCommand`.
  Its outcome is up to the `World`, and `ImportFailureFailsLossless`
  states what happens when it raises.

## Model

| member | source | states |
|---|---|---|
| Strings.LStripSpec | music_librarian/cli.py:104 | the left strip removes a prefix made only of whitespace and stops at the first non-space character |
| Strings.RStripSpec | music_librarian/cli.py:104 | the right strip removes a suffix made only of whitespace and stops at the last non-space character |
| Strings.StripNoSpace | music_librarian/cli.py:104 | text without whitespace is left unchanged by strip |
| Strings.JoinSplit | music_librarian/cli.py:102 | joining the pieces of `split('\n')` with the separator gives back the text |
| Strings.SplitJoin | music_librarian/cli.py:102 | splitting the join of separator-free pieces gives back the pieces |
| Strings.SplitTrailingSep | music_librarian/cli.py:102 | a trailing newline adds one empty last piece to the split |
| Strings.IndexOf | music_librarian/cli.py:128 | the result is the position of the first occurrence of the separator |
| Strings.RFind | music_librarian/file_discovery.py:29 | the result is the last position of the character, or -1 exactly when it is absent |
| Strings.IntToStringRoundTrip | music_librarian/metadata_handler.py:270-272 | `int(str(n)) == n` for every integer of at most 4300 digits, the ones `str()` can format |
| Strings.ParseIntOfDigits | music_librarian/metadata_handler.py:171 | `int()` of a string of 1 to 4300 digits is its decimal value |
| Strings.ParseIntOfNegativeDigits | music_librarian/metadata_handler.py:171 | `int()` of `-` followed by 1 to 4300 digits is the negated decimal value |
| Strings.ParseIntRejectsLongDigits | music_librarian/metadata_handler.py:171-174 | more than 4300 digits, with or without a minus sign, make `int()` raise ValueError |
| Strings.NatToStringLength | music_librarian/metadata_handler.py:270-272 | a number below `10 ** k` prints in at most `k` digits |
| Strings.DigitsValueLength | music_librarian/metadata_handler.py:171 | the value of a digit string takes no more digits to print than the string has |
| Strings.ParseIntFits | music_librarian/metadata_handler.py:171 | every integer `int()` returns has at most 4300 digits, so `str()` can format it again |
| Strings.LTrimIntSpec | music_librarian/metadata_handler.py:171 | `int()` skips a leading run made only of its whitespace and stops at the first other character |
| Strings.RTrimIntSpec | music_librarian/metadata_handler.py:171 | `int()` skips a trailing run made only of its whitespace and stops at the last other character |
| Strings.ParseIntSkipsSpace | music_librarian/metadata_handler.py:171 | a leading space does not change what `int()` gives |
| Strings.ParseIntRejectsSeparator | music_librarian/metadata_handler.py:171 | text that starts with one of U+001C..U+001F is no integer, whatever follows |
| Strings.NoSignNoDigit | music_librarian/metadata_handler.py:171 | text that starts with neither a sign nor a digit is no integer |
| Strings.LowerIdempotent | music_librarian/metadata_handler.py:23 | lower-casing twice is lower-casing once |
| Paths.ParsePath | music_librarian/cli.py:63-65 | a parsed path holds only proper parts, and it is absolute exactly when the text starts with `/` |
| Paths.ParseRender | music_librarian/cli.py:73 | parsing the printed form of a path gives back the same path |
| Paths.ParseRenderParse | music_librarian/cli.py:73 | printing and re-parsing the text is the same as parsing it once |
| Paths.TrailingSlashIgnored | music_librarian/cli.py:63-65 | a trailing `/` does not change the parsed path |
| Paths.KeepPartsAppend | music_librarian/cli.py:63-65 | dropping empty and `.` pieces distributes over concatenation |
| Paths.Suffix | music_librarian/file_discovery.py:29 | the suffix is empty, or it is a dot-led tail of the name with no other dot and shorter than the name |
| Paths.SuffixOfStemPlus | music_librarian/cli.py:86 | a non-empty stem followed by a plain suffix has exactly that suffix and that stem |
| Paths.WithSuffix | music_librarian/cli.py:86 | `with_suffix` keeps the root and every part but the last; it fails exactly when the name is empty; the new name has the old stem and the new suffix |
| Paths.RelativeTo | music_librarian/cli.py:68 | it succeeds exactly when both paths have the same root and the other path's parts are a prefix; the result is relative and holds the remaining parts |
| Paths.JoinRelativeTo | music_librarian/cli.py:68-71 | joining `p.relative_to(o)` back onto `o` gives `p` |
| CliPaths.ResolveDestinationPath | music_librarian/cli.py:52-73 | it succeeds exactly when the source lies at or under the source root; the result is the printed form of the destination root extended by the source's parts below the source root |
| CliPaths.RootMapsToDestRoot | music_librarian/cli.py:63-73 | the source root maps to the destination root itself |
| CliPaths.TrailingSlashesIgnored | music_librarian/cli.py:63-73 | trailing slashes on any of the three arguments do not change the result |
| CliPaths.ResolveDestinationInverse | music_librarian/cli.py:63-73 | re-rooting the result from the destination root back to the source root gives the source directory |
| CliPaths.ResolveOutputFilename | music_librarian/cli.py:76-86 | it succeeds exactly when the final part is non-empty; the result is in pathlib's printed form, keeps the root, the directory parts and the stem, and its suffix is `.opus` |
| CliPaths.OutputNameOfTrack | music_librarian/cli.py:76-86 | the output name of `dirs/stem.ext` is exactly the printed path `dirs/stem.opus` |
| CliMetadata.SplitPairAtFirstColon | music_librarian/cli.py:127-130 | a pair splits at its first colon: the key holds no colon, the value keeps later colons, and both sides are stripped |
| CliMetadata.FileLineNotIgnored | music_librarian/cli.py:105-109 | a line starting with `file:` is never skipped as blank or as a comment |
| CliMetadata.Step | music_librarian/cli.py:102-135 | after every line, an open section has an entry in `files` |
| CliMetadata.Run | music_librarian/cli.py:102-135 | the same invariant holds after any number of lines |
| CliMetadata.ParseMetadataFile | music_librarian/cli.py:89-137 | the loop's result equals the fold of the per-line rule over the lines of the text, and it lists each file name once in first-seen order |
| CliMetadata.StepWellFormed | music_librarian/cli.py:114-115 | one line keeps the file-name order duplicate-free and in step with the keys of `files` |
| CliMetadata.RunWellFormed | music_librarian/cli.py:102-135 | any run of lines keeps the file-name order well formed |
| CliMetadata.ParseWellFormed | music_librarian/cli.py:98-137 | every parse result lists each file name exactly once |
| CliMetadata.RunAppend | music_librarian/cli.py:102 | parsing two blocks of lines is parsing the first, then the second from the state it leaves |
| CliMetadata.IgnoredLineIsNeutral | music_librarian/cli.py:104-106 | inserting a blank or comment line anywhere leaves the parse unchanged |
| CliMetadata.PairLandsFirst | music_librarian/cli.py:126-135 | a pair line puts its value under its key in the open named section, or in the album fields when no named section is open; the other scope is untouched and the section stays open |
| CliMetadata.StepKeepsPair | music_librarian/cli.py:102-135 | a line that is neither a `file:` line nor a pair for the key keeps the landed value and the scope |
| CliMetadata.PairLandsInScope | music_librarian/cli.py:109-135 | a pair's value stays under its key in its scope through every following line that is neither a `file:` line nor a pair for the same key; so the last pair for a key before the next header is the one kept |
| CliMetadata.StepClearsNothing | music_librarian/cli.py:109-135 | no line removes an album field, a file entry or a field of a file entry, and the name order only grows |
| CliMetadata.NothingIsCleared | music_librarian/cli.py:114-115 | over any run of lines, a repeated header never clears fields already collected |
| CliMetadata.HeaderOpensSection | music_librarian/cli.py:109-115 | a valid header opens the stripped name, clears the malformed flag, and creates an empty entry only when the name is new |
| CliMetadata.EmptyHeaderSendsPairsToAlbum | music_librarian/cli.py:111-135 | the bare `file:` line creates the `""` entry, yet the next pair goes to the album fields |
| CliMetadata.MalformedSectionIsIgnored | music_librarian/cli.py:116-124 | after a malformed header, lines up to the next valid header change nothing, and no entry is created for the malformed name |
| CliMetadata.MalformedStaysInert | music_librarian/cli.py:122-124 | while the malformed flag is set, lines without a valid header keep the result and the flag |
| CliMetadata.NoSectionsNoFiles | music_librarian/cli.py:98-135 | text without any `file:` line produces no file entries and leaves no section open |
| CliMetadata.ValidateMetadataFiles | music_librarian/cli.py:140-152 | it returns normally exactly when every referenced name is available; otherwise it raises the ValueError naming the first missing name in insertion order, with the source's message |
| CliCoverArt.FirstCoverFor | music_librarian/cli.py:171-175 | the result is the first name in list order that matches the prefix, or none when no name matches |
| CliCoverArt.FindCoverArt | music_librarian/cli.py:155-177 | the nested loops return exactly the cover chosen by the priority rule |
| CliCoverArt.SelectCoverFromNone | music_librarian/cli.py:170-177 | no cover is chosen exactly when no name matches any prefix |
| CliCoverArt.SelectCoverFromPriority | music_librarian/cli.py:170-175 | the chosen cover is a given name that matches some prefix; no name matches an earlier prefix, and no earlier name matches the same prefix |
| CliCoverArt.SelectCoverPriority | music_librarian/cli.py:164-177 | the same two facts for the prefixes cover, folder, front and album |
| CliCoverArt.CoverMatchIgnoresCase | music_librarian/cli.py:172-174 | a name and its lower-cased form match the same prefixes |
| CliCoverArt.CoverBeatsFront | music_librarian/cli.py:170-175 | example: for `["front.png", "Cover.JPG"]` the result is `Cover.JPG` |
| CliCoverArt.CoverNameExamples | music_librarian/cli.py:174 | examples: `covers.jpg` is a cover name, since more text may follow the prefix; `cover.jpg.txt` is not, since the image extension must end the name |
| CliCoverArt.NoCoverExample | music_librarian/cli.py:177 | example: a list of names that start with none of the prefixes gives no cover |
| MetadataHandler.SupportsFormat | music_librarian/metadata_handler.py:13-23 | a supported extension has three or four characters and no dot |
| MetadataHandler.SupportsFormatIgnoresCase | music_librarian/metadata_handler.py:13-23 | an extension is supported exactly when its lower-cased form is one of the seven, whatever its case |
| MetadataHandler.SupportsFormatExamples | music_librarian/metadata_handler.py:22-23 | examples: `MP3`, `Opus` and `flac` are supported; `txt`, `.mp3` and the empty string are not |
| MetadataHandler.LStripChar | music_librarian/metadata_handler.py:43 | the result is a tail of the text that does not start with the stripped character, and only that character was removed |
| MetadataHandler.ExtensionOf | music_librarian/metadata_handler.py:43 | the extension passed to `supports_format` never contains a dot |
| MetadataHandler.NameExtensionOfSuffix | music_librarian/metadata_handler.py:43 | the extension of `stem + suffix` is the suffix lower-cased without its dot |
| MetadataHandler.NameExtensionNone | music_librarian/metadata_handler.py:43 | a name with no dot after its first character has the empty extension |
| MetadataHandler.CheckTagAccess | music_librarian/metadata_handler.py:82-94 | tags are reached exactly when the file exists, its extension is supported and it loads; otherwise the first failing check raises, with the source's exception class and message |
| MetadataHandler.GuardOrder | music_librarian/metadata_handler.py:39-51 | a missing file and an unsupported extension are reported whatever loading would have given; the ValueError arises only for a file that exists |
| MetadataHandler.ApplyEffect | music_librarian/metadata_handler.py:147-150 | after apply, each recognised non-empty field's tag holds the encoded value; tags are added only for such fields; every other tag keeps its old contents |
| MetadataHandler.ApplyKeepsNonEmpty | music_librarian/metadata_handler.py:150 | when every written value is a non-empty list, apply keeps every tag value non-empty |
| MetadataHandler.WritesDomain | music_librarian/metadata_handler.py:148-150 | a field's tag is written exactly when the field is recognised and non-empty, with that field's encoded value |
| MetadataHandler.ReadAfterApply | music_librarian/metadata_handler.py:147-150 | reading after apply gives the old reading overridden by the re-read written fields |
| MetadataHandler.ReadAfterApplyAs | music_librarian/metadata_handler.py:147-150 | the same, when reading an encoded value is a known function of the value |
| MetadataHandler.RereadIdentity | music_librarian/metadata_handler.py:147-150 | when reading inverts encoding, re-reading the writes gives the recognised non-empty fields |
| MetadataHandler.VorbisTablesAgree | music_librarian/metadata_handler.py:138-145 | the Vorbis write table and read table are inverse, and they cover the six fields |
| MetadataHandler.ApplyOggMetadata | music_librarian/metadata_handler.py:135-150 | the comments become the old comments overridden by `[value]` at the tag of each recognised non-empty field, and every comment list stays non-empty |
| MetadataHandler.ApplyOpusMetadata | music_librarian/metadata_handler.py:179-182 | Opus apply has exactly the Vorbis effect, and keeps every comment list non-empty |
| MetadataHandler.ReadOggMetadata | music_librarian/metadata_handler.py:231-251 | the result holds each field whose tag is present, with the first list element as its value |
| MetadataHandler.ReadOpusMetadata | music_librarian/metadata_handler.py:280-283 | Opus read gives exactly the Vorbis reading |
| MetadataHandler.VorbisApplyKeepsValid | music_librarian/metadata_handler.py:150 | apply keeps every comment list non-empty |
| MetadataHandler.VorbisApplyEffect | music_librarian/metadata_handler.py:147-150 | each written tag becomes `[value]`; new tags are among the six; other tags keep their contents |
| MetadataHandler.VorbisRoundTrip | music_librarian/metadata_handler.py:135-150 | reading after apply gives the old reading overridden by exactly the recognised non-empty fields |
| MetadataHandler.Mp3TablesAgree | music_librarian/metadata_handler.py:118-125 | the ID3 frame table for writing and the one for reading are inverse, and they cover the six fields |
| MetadataHandler.ApplyMp3Metadata | music_librarian/metadata_handler.py:113-132 | with a tag block, each recognised non-empty field sets its frame's text; without one, it raises TypeError exactly when some field would be written, and nothing is written |
| MetadataHandler.ReadMp3Metadata | music_librarian/metadata_handler.py:208-228 | without a tag block the result is empty; otherwise it holds each field whose frame is present |
| MetadataHandler.Mp3RoundTrip | music_librarian/metadata_handler.py:127-132 | reading after apply gives the old reading overridden by exactly the recognised non-empty fields |
| MetadataHandler.Mp3ApplyKeepsOtherFrames | music_librarian/metadata_handler.py:127-132 | frames outside the table keep their contents, and each written frame holds its field's value |
| MetadataHandler.Mp4TablesAgree | music_librarian/metadata_handler.py:156-163 | the MP4 atom table for writing and the one for reading are inverse, and they cover the six fields |
| MetadataHandler.ApplyMp4Metadata | music_librarian/metadata_handler.py:153-176 | each recognised non-empty field sets its atom; the track number becomes `[(n, 0)]` when it parses as `n` with `0 <= n <= 65535`, and `[(1, 0)]` when `int()` raises or the atom rejects the number; every table atom keeps the shape read expects |
| MetadataHandler.ReadMp4Metadata | music_librarian/metadata_handler.py:254-277 | the result holds each field whose atom is present, and the track number is read from the first pair's first component |
| MetadataHandler.Mp4RoundTrip | music_librarian/metadata_handler.py:165-176 | reading after apply gives the old reading overridden by the re-read written fields |
| MetadataHandler.Mp4GetEncode | music_librarian/metadata_handler.py:168-176 | a written text field reads back unchanged; a track number reads back as `str(int(value))` when that lies in 0..65535, and as `1` when `int()` raises or the number is out of range |
| MetadataHandler.Mp4ApplyKeepsShape | music_librarian/metadata_handler.py:165-176 | apply keeps every table atom in the shape read expects |
| MetadataHandler.TrackNumberCanonical | music_librarian/metadata_handler.py:170-172 | a track number in canonical decimal form within 0..65535 survives the round trip |
| MetadataHandler.TrackNumberFits | music_librarian/metadata_handler.py:170-174 | every track number apply stores lies in 0..65535 and prints in at most five digits, so reading it back never hits `str()`'s limit |
| MetadataHandler.TrackNumberOutOfRange | music_librarian/metadata_handler.py:170-174 | an integer outside 0..65535 is rejected by the atom, so it is stored as `[(1, 0)]` and reads back as `1` |
| MetadataHandler.NegativeTrackExample | music_librarian/metadata_handler.py:170-174 | example: `-2` reads back as `1` |
| MetadataHandler.TrackNumberOverLimit | music_librarian/metadata_handler.py:170-174 | a track number of more than 4300 digits is stored as `[(1, 0)]` and reads back as `1` |
| MetadataHandler.TrackNumberExamples | music_librarian/metadata_handler.py:170-174 | examples: `01` reads back as `1`, and `A1` reads back as `1` |
| AudioProcessor.GetOutputFilename | music_librarian/audio_processor.py:70-87 | a lossless name gets its final suffix replaced by `.opus` while the directory and stem stay; any other type keeps the same path; the result is always in pathlib's printed form |
| AudioProcessor.GetOutputFilenameKeepsNormalName | music_librarian/audio_processor.py:85-87 | for any type other than `lossless`, a name already in pathlib's form comes back unchanged |
| AudioProcessor.GetOutputFilenameSamePath | music_librarian/audio_processor.py:80-87 | two spellings of the same path get the same output name |
| AudioProcessor.RStripChar | music_librarian/audio_processor.py:26 | the result is a prefix of the text that does not end in the character, and only that character was removed |
| AudioProcessor.Dirname | music_librarian/audio_processor.py:26 | the directory is a prefix of the path followed by a run of slashes and then a slash-free name; it keeps every slash but the name when it is made of slashes only (so it is empty exactly when there is no `/`), and otherwise it does not end in `/` |
| AudioProcessor.DirnameOfChild | music_librarian/audio_processor.py:26-27 | the directory of `dir/name` is `dir` |
| AudioProcessor.CopyPlan | music_librarian/audio_processor.py:11-34 | the copy step creates the destination's directory, then copies the file, then applies the tags to the copy, and does the last only when the metadata is non-empty |
| AudioProcessor.TranscodePlan | music_librarian/audio_processor.py:37-67 | the transcode step imports the encoder command builder, creates the destination's directory, then runs the encoder with the quality and metadata |
| AudioProcessor.PlanWritesOnlyDestination | music_librarian/audio_processor.py:25-34 | both steps write the destination file, write no other file, and create its directory before any write |
| AudioProcessor.FirstRaise | music_librarian/audio_processor.py:109-120 | every step before the result position completes, and the step at it raises |
| AudioProcessor.RunSteps | music_librarian/audio_processor.py:109-120 | the attempted steps are a prefix of the plan; all steps but the last complete; the run raises exactly when its last step raised, with that step's message |
| AudioProcessor.RunStepsCompletes | music_librarian/audio_processor.py:109-120 | a run completes exactly when every step of the plan completes |
| AudioProcessor.ProcessAudioFile | music_librarian/audio_processor.py:90-120 | the action is `transcoded` only for lossless files and `copied` only for other types; `failed` exactly when an error is reported; the attempted effects are a prefix of the chosen step |
| AudioProcessor.LosslessOnlyTranscodes | music_librarian/audio_processor.py:110-113 | a lossless file is never copied or tagged |
| AudioProcessor.OtherTypesOnlyCopy | music_librarian/audio_processor.py:114-117 | any other type never involves the encoder |
| AudioProcessor.ProcessSucceedsIff | music_librarian/audio_processor.py:109-117 | the result is `transcoded` or `copied` exactly when every effect of the chosen step completes, and then all were carried out |
| AudioProcessor.FailureReportsRaisingStep | music_librarian/audio_processor.py:119-120 | a failure carries the message of the effect that raised; every effect before it completed, and nothing after it was attempted |
| AudioProcessor.CopyTagsOnlyWithMetadata | music_librarian/audio_processor.py:33-34 | a copied file is tagged exactly when the metadata is non-empty and the directory and copy effects completed |
| AudioProcessor.EmptyMetadataLikeNone | music_librarian/audio_processor.py:33-34 | `{}` as metadata behaves exactly like None |
| AudioProcessor.ImportFailureFailsLossless | music_librarian/audio_processor.py:57 | when the encoder command cannot be imported, every lossless file fails with that message and nothing else is attempted |
| FileDiscovery.FindAudioFiles | music_librarian/file_discovery.py:7-33 | a missing root raises FileNotFoundError and a non-directory raises NotADirectoryError, both before any scan; otherwise the loop returns the audio entries relative to the root, in walk order |
| FileDiscovery.AudioFilesAppend | music_librarian/file_discovery.py:28-31 | the listing of a walk in two pieces is the first piece's listing followed by the second's |
| FileDiscovery.AudioFilesMembership | music_librarian/file_discovery.py:28-31 | a path is listed exactly when some walked entry is a regular file with an audio suffix at that relative path |
| FileDiscovery.AudioFilesUnderRoot | music_librarian/file_discovery.py:30 | every listed path is relative, and joining it to the root gives a walked audio file |
| FileDiscovery.AudioFilesCount | music_librarian/file_discovery.py:28-31 | there is exactly one listed path per audio entry of the walk |
| FileDiscovery.NoAudioNoFiles | music_librarian/file_discovery.py:29 | the listing is empty exactly when no walked entry is an audio file |
| FileDiscovery.LowerSuffixOf | music_librarian/file_discovery.py:29 | the lower-cased final suffix of `stem + suffix` is the suffix lower-cased |
| FileDiscovery.AudioSuffixIgnoresCase | music_librarian/file_discovery.py:25-29 | `.FLAC` and `.Wav` count as audio suffixes |
| FileDiscovery.AudioSuffixIsFinal | music_librarian/file_discovery.py:29 | only the final suffix counts: `x.wav.mp3` is not an audio file |

## Left out

- The click `transcode` command (music_librarian/cli.py:13-49). It reads environment variables, writes to the terminal and exits; none of that is logic to model.
- mutagen is not modelled: loading a file, `isinstance` dispatch, `save()`. Its one check that the core relies on, that an MP4 `trkn` number lies in 0..65535 (a ValueError otherwise), is modelled in `TrackNumber`. Each format's tag container is a map field of a class. Whether the file exists and whether it loads are parameters of `CheckTagAccess`.
- `_apply_generic_metadata` and `_read_generic_metadata`, and the FLAC/WAV fallback that uses them. They depend on bare `except` clauses around unknown container behaviour.
- The dispatch in `read_metadata_from_file` and `apply_metadata_to_file` from the loaded object's class to a per-format function. Only the guards before it and the per-format functions are modelled.
- `shutil.copy2`, `os.makedirs`, the tag writing and `subprocess.run`. Each is an `Effect`, and a `World` parameter gives its outcome; a non-zero exit of the encoder is a raising `RunEncoder`.
- `build_opusenc_command` is not part of this model. `music_librarian/cli.py` does not define it, so the outcome of its import is left to the `World`.
- The recursive walk (`rglob`) and the `exists()`/`is_dir()` tests of `find_audio_files`. The walk is a given sequence of (relative parts, is-regular-file) entries, and the root's kind is a parameter.
- Unicode normalisation of file names. The validator and the cover selector compare names as plain code-point sequences.
- `Strings.IntToString`: it is total. Python's `str()` raises ValueError for `abs(n) >= 10 ** 4300`. Every track number the model's apply stores lies in 0..65535 (`TrackNumberFits`). An atom already in a loaded file cannot exceed that either, since the MP4 format stores track numbers in 16 bits.
- `Strings.Lower`: it lower-cases ASCII letters only, not all of Unicode as `str.lower` does.
- `Strings.ParseInt`: it accepts ASCII digits only. Python's `int()` also accepts other Unicode decimal digits and `_` between digits. Its whitespace handling is `int()`'s, including the rejection of U+001C..U+001F.
- `Paths.ParsePath`: a path starting with exactly two slashes keeps `//` as its root in pathlib, and the model treats it as `/`.
- Case-insensitive Vorbis comment keys in mutagen. The model's comment map is keyed by the exact tag name the tables use.
- The meaning of an MP3 `TDRC` frame as a timestamp. A frame is modelled by its text, and `str(frame)` is that text.
- Metadata values that are not strings. A value is a string, `if value:` means non-empty, and `str(value)` is the value itself.
- The order in which the apply loops visit the metadata dictionary. Each loop picks any pending field, and the proved result does not depend on the order, since each field writes a different tag.
- `MetadataHandler.ReadOggMetadata`: requires every comment list to be non-empty, as mutagen keeps it. An empty list would make `[0]` raise IndexError, which the model does not represent.
- `MetadataHandler.ReadOpusMetadata`: has the same non-empty-list requirement as `ReadOggMetadata`.
- `MetadataHandler.ReadMp4Metadata`: requires each table atom to hold a non-empty list of the shape read expects: pairs for `trkn`, strings otherwise. Anything else would raise inside `[0][0]`, which the model does not represent.
- `MetadataHandler.ApplyMp3Metadata`: the TypeError message is CPython's wording for item assignment on None.
