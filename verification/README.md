# Classical music tagger: a verified model of its decision core

`music.py` walks a folder of FLAC files. For each one it works in four steps:

- It checks that the file really is FLAC. If it is not, it re-encodes it with ffmpeg, moving the original to a backup folder first.
- It skips files whose tags already name a composer, a work, a title and an artist.
- For the rest, it asks a language model for a metadata record.
- It writes that record as Vorbis comments, unless the run is a dry run.

This project models the parts of that script that make decisions, as pure Dafny functions. The things the script delegates to are parameters (oracles):

- the tag library's parse and save;
- the encoder;
- the inference service;
- the file system, modelled as a map from paths to bytes.

The modules follow the script's structure:

- `Wrappers`: `Option`, standing for Python's `None` versus a value.
- `Builtins`: the Python built-ins the script relies on, with Python's semantics:
  - clamped slicing;
  - `str.isspace` and `str.strip`;
  - `str.join`;
  - `str(int)`.
- `FormatSniffer`: `detect_actual_format`, and the four-byte signature check of `validate_flac_file`.
  - The signatures are the FLAC stream marker (section 6 of RFC 9639), RIFF/WAVE, ID3 and the MPEG frame sync, and the Ogg capture pattern (section 6 of RFC 3533).
  - Also the MP4 File Type Box (section 4.3 of ISO/IEC 14496-12) and three common box sizes.
- `TagStore`: `validate_flac_file` over a parser oracle, the gate `has_proper_metadata`, and the full-replace mapping of `apply_metadata_to_flac`.
- `Files`: the parts of `pathlib` the converter uses (`stem`, `suffix`) and the hidden temporary output name. Also a file system with three primitive operations (write, unlink, move) that either succeed or raise.
- `Transcoder`: `convert_to_flac`.
  - The backup-name search is both a recursive reference function and the script's counting loop; the two are proved equal.
  - The conversion returns its log of file-system operations, so every intermediate state can be stated.
- `Pipeline`: the per-file routing of `process_folder` and the loop over the files.
- `Fence`: how the inference reply is unwrapped before it is parsed as JSON. This covers the regular expression ```` ```json\s*(.*?)\s*``` ```` under DOTALL (leftmost match, greedy leading whitespace, shortest group), and the bare-fence fallback.

The model follows what the code does where this differs from what it announces:

- **Dry runs still convert.** A dry run prints "no files will be modified", but it still converts invalid files, moving originals to the backup folder (`Pipeline.DryRunStillConverts`). Only the tag write is suppressed.
- **Missing output is not cleaned up.** A clean encoder exit that left no file at the temporary path abandons the conversion without any cleanup.
- **A failed re-validation is not undone.** If the converted file does not validate, it stays at the source path, with the original in the backup folder.

Features described for the wider system but absent from `music.py` are not modelled:

- an audit mode;
- renaming with collision suffixes;
- composed short work titles;
- cover art.

## Model

| member | source | states |
|---|---|---|
| Builtins.Slice | music.py:146-154 | Python slicing clamps both bounds to the length; in range it is the ordinary sub-sequence |
| Builtins.SliceEqualsIff | music.py:146-154 | a clamped slice equals a non-empty signature exactly when the whole signature lies inside the header at that offset |
| Builtins.IsSpace | music.py:129 | exactly the characters Python's `str.isspace` accepts, which `strip()` removes: tab to carriage return, the separators 0x1c to 0x1f, space, next-line, no-break space, the Unicode space separators and the line and paragraph separators |
| Builtins.StripShape | music.py:129 | what `strip()` leaves has no whitespace at either end and is no longer than the input |
| Builtins.StripKeepsChars | music.py:82 | `strip()` only removes characters: every character left was in the input |
| Builtins.StripEmptyIffBlank | music.py:129 | `value.strip()` is empty exactly when every character is whitespace |
| Builtins.JoinBlankIff | music.py:266 | a `", "`-join is all whitespace exactly when it has at most one part and that part is blank |
| Builtins.Join | music.py:266 | joining no parts gives the empty string; otherwise the result starts with the first part and ends with the last, and with two or more parts the separator follows the first part |
| Builtins.DecimalString | music.py:215 | `str(counter)` is a non-empty run of decimal digits with no leading zero |
| Builtins.ParseDecimalInverts | music.py:215 | the counter written into a backup name reads back as the same number |
| Builtins.DecimalStringInjective | music.py:215 | different counters are written as different digit strings |
| FormatSniffer.DetectHeader | music.py:145-158 | the result is the first format in the order flac, wav, mp3, ogg, m4a whose signature matches; it is unknown exactly when none matches; no earlier format matches |
| FormatSniffer.DetectFile | music.py:139-160 | only the first 12 bytes are classified; an unreadable file is unknown |
| FormatSniffer.DetectReadsTwelveBytes | music.py:142-143 | two files that agree on their first 12 bytes get the same format |
| FormatSniffer.FlacBeatsFtyp | music.py:146-156 | a fLaC header that also carries `ftyp` at offset 4 is flac, not m4a |
| FormatSniffer.WavNeedsBothTags | music.py:146-149 | the result is wav exactly when RIFF is at 0, WAVE is at 8 and the header is not FLAC |
| FormatSniffer.ShortHeaderIsUnknown | music.py:145-158 | a header shorter than two bytes, the empty file included, is unknown and never an error |
| FormatSniffer.FlacHeaderAgreesWithSniffer | music.py:103-106 | the four-byte marker check of validation passes exactly when the sniffer says flac |
| TagStore.ValidateFlac | music.py:99-112 | a file is valid exactly when its first four bytes are the marker and the tag library then parses it; the tags are the parser's |
| TagStore.ValidRequiresFlacSignature | music.py:103-106 | a file the sniffer does not call flac is invalid whatever the parser would say |
| TagStore.AnyKeyHasValue | music.py:127-131 | the inner loop succeeds exactly when some listed tag has a non-empty list whose first value is not whitespace |
| TagStore.AnyKeyHasValueIffPresent | music.py:128-129 | the loop's strip-based test agrees with the declarative "some backing tag is non-blank" reading of a role |
| TagStore.MissingRoles | music.py:124-133 | a role is listed exactly when it was asked for and is not present; the list is no longer than the roles asked for and keeps their order |
| TagStore.HasProperMetadata | music.py:114-137 | true exactly when all four roles are present, and then the list is empty; otherwise the list holds exactly the missing roles, each once, in the order composer, work, title, artist |
| TagStore.ApplyMetadata | music.py:250-283 | each writable tag is present exactly when its assignment fires, with that assignment's value; no other tag exists after the write |
| TagStore.FieldValueShape | music.py:253-283 | no assignment writes an empty list, and every tag except PERFORMER is written as exactly one value |
| TagStore.ApplyIgnoresPriorTags | music.py:250 | the tags written do not depend on the tags the file held before |
| TagStore.WrittenValuesNonEmpty | music.py:253-283 | no tag is ever written with an empty value list |
| TagStore.WrittenPlainFields | music.py:253-283 | COMPOSER, DATE, DISCNUMBER and TRACKNUMBER are present exactly when their field is non-empty, and hold it as the only value |
| TagStore.WrittenWorkMirrored | music.py:256-258 | ALBUM and WORK are present exactly when the work is, and both hold it |
| TagStore.WrittenTitlePrecedence | music.py:260-263 | TITLE is the movement if there is one, else the work if there is one, else absent |
| TagStore.WrittenPerformersMirrored | music.py:265-267 | ARTIST and ALBUMARTIST are present exactly when there are performers, and both hold them joined with ", " as one value |
| TagStore.WrittenOrchestraMirrored | music.py:269-271 | ORCHESTRA and ENSEMBLE are present exactly when the orchestra is, and both hold it |
| TagStore.WrittenSoloistsKept | music.py:273-274 | PERFORMER is present exactly when there are soloists, and holds them as separate values |
| TagStore.ValuedAfterWrite | music.py:253-283 | a written tag is non-blank exactly when its assignment fired with a non-blank first value |
| TagStore.WrittenTagsGate | music.py:253-274 | after a write a role is present exactly when the record provides a non-blank value for it |
| TagStore.WrittenArtistGate | music.py:265-267 | the artist role is present after a write exactly when there are two or more performers or a single non-blank one |
| TagStore.WrittenTagsComplete | music.py:114-137 | writing a record that provides every role makes the gate pass with nothing missing |
| Files.RFind | music.py:176 | the result is the last index holding the character, or -1 when it does not occur |
| Files.StemSuffixSplit | music.py:210 | what `stem` and `suffix` give: stem followed by suffix is the name; the suffix is empty or a dot followed by dot-free characters; a non-empty name has a non-empty stem; the stem is the whole name exactly when there is no suffix |
| Files.TempNameStem | music.py:176 | the temporary name has suffix `.flac` and the stem of the source marked with a leading dot and `_converted` |
| Files.TempIsNotSource | music.py:176 | the temporary output path is never the source path |
| Files.Apply | music.py:199-220 | a write always succeeds; unlinking or moving a missing file raises; a move puts the source's bytes at the destination and removes the source; no other path changes |
| Files.RunFrame | music.py:196-220 | a path that no logged operation touches keeps its contents or its absence |
| Transcoder.BackupNameInjective | music.py:210-215 | different counters give different backup names, so the search never retries a name |
| Transcoder.BackupNameShape | music.py:210-215 | every candidate name is `{stem}_original_{format}`, then nothing for the plain name or `_` and the counter's digits for a numbered one, then the source's suffix |
| Transcoder.NextTriedShrinks | music.py:213-216 | each taken candidate tried leaves strictly fewer taken paths untried, so the search ends for every finite set of existing files |
| Transcoder.FirstFree | music.py:213-216 | the result is the first counter from the start whose candidate does not exist |
| Transcoder.BackupCounter | music.py:210-216 | the chosen candidate does not exist and every earlier candidate, the plain name first, does |
| Transcoder.BackupCounterUnique | music.py:213-216 | only one counter is free with every earlier one taken |
| Transcoder.ChooseBackupPath | music.py:210-216 | the counting loop ends on a path that does not exist, and it is the first free candidate |
| Transcoder.ConvertToFlac | music.py:162-236 | tags are returned only after the original was moved, and they are the validation of the file now at the source path |
| Transcoder.ConversionReplays | music.py:196-220 | replaying the logged operations on the starting file system gives the resulting one |
| Transcoder.ConversionProceedsIff | music.py:196-217 | the original is moved exactly when the encoder exited cleanly, a file is at the temporary path, and the source exists |
| Transcoder.FailedConversionKeepsSource | music.py:196-206 | when the original was not moved, nothing is returned and every path but the temporary one, the source included, is unchanged; after a non-zero exit no temporary file remains |
| Transcoder.ConversionSucceeds | music.py:208-220 | after a conversion the backup path was free, it holds the original bytes, the source holds the encoder's output, the temporary file is gone and no other path changed |
| Transcoder.MovesInOrder | music.py:217-220 | the move to the backup comes before the move onto the source; between them the original is at the backup and the source path is empty |
| Transcoder.OriginalNeverLost | music.py:196-236 | after every prefix of the logged operations the original bytes are at the source path or at the backup |
| Pipeline.Prepare | music.py:317-325 | tags are handed on only for a file that now exists and validates to exactly those tags |
| Pipeline.ProcessFile | music.py:310-356 | tags are written only outside a dry run and only with the record the oracle gave for that file; no path but the file itself changes after validation and conversion |
| Pipeline.LiveRunWrites | music.py:339-352 | in a live run, a file whose valid tags fail the gate and for which the oracle gives a record has its tags cleared, replaced by the record's and saved: the saved bytes take the file's place and the outcome is Written, or the save raises, the file is left as it was and the outcome is WriteFailed |
| Pipeline.InferenceAskedIff | music.py:327-339 | the inference oracle is consulted exactly when the file has valid tags that fail the gate |
| Pipeline.SkipWhenConversionFails | music.py:318-324 | an invalid file whose conversion yields nothing valid is skipped, leaving the file system as the conversion left it |
| Pipeline.TaggedSkipIgnoresInference | music.py:328-331 | a file that passes the gate is skipped, and the result is the same whatever the inference oracle or the save would do |
| Pipeline.DryRunNeverWrites | music.py:347-354 | a dry run never saves tags; it leaves a file that was valid FLAC, and the rest of the file system, as they were |
| Pipeline.DryRunStillConverts | music.py:317-325 | in a dry run an invalid file with a working encoder is still replaced by the encoder's output, with the original in the backup |
| Pipeline.SecondRunSkips | music.py:328-331 | once a record providing every role has been written with a save that round-trips, the next run skips the file as already tagged |
| Pipeline.ProcessAll | music.py:310-356 | one outcome per file; in a dry run no outcome is a write |
| Pipeline.ProcessFolder | music.py:291-356 | a missing folder or an empty file list does nothing; otherwise the loop gives the same outcomes and file system as processing each file in order |
| Pipeline.DryRunOnValidFilesChangesNothing | music.py:307-354 | a dry run over files that are all valid FLAC leaves the file system unchanged |
| Fence.FindFrom | music.py:85 | the result is the first occurrence at or after the start position, or none when there is none |
| Fence.SpaceEnd | music.py:85 | the greedy `\s*` consumes a maximal whitespace run |
| Fence.SpaceStart | music.py:85 | the trailing `\s*` before the closing fence starts where the whitespace run before it starts |
| Fence.FencedGroup | music.py:85-87 | when the pattern matches, its group has no whitespace at either end and holds no three backticks in a row; a text without ```` ```json ```` never matches |
| Fence.ExtractJson | music.py:82-91 | whatever branch is taken, the text handed to the JSON parser has no whitespace at either end |
| Fence.FencedRoundTrip | music.py:84-87 | a ```` ```json ```` fence around a stripped body with no fence inside unwraps to exactly the body |
| Fence.FencedGroupOfFence | music.py:85-87 | the pattern's group on such a fence is the body |
| Fence.UnfencedReplyStripped | music.py:82-91 | a reply without backticks reaches the JSON parser only stripped |
| Fence.BareFenceRoundTrip | music.py:88-91 | a bare ```` ``` ```` fence around a stripped, backtick-free body that does not start with `json` unwraps to the body |
| Fence.BareFenceHasNoGroup | music.py:85-88 | the pattern finds no group in such a bare fence, so the fallback branch runs |
| Fence.BareFenceInside | music.py:89 | stripping the backticks, then whitespace, leaves the body |

## Left out

- The inference service client, the prompt text, the network call and `json.loads` (music.py:29-97) are left out. They are the oracle `Env.infer`, which gives a record or `None`. `None` stands for a raised error, an unparsable reply, or an empty (falsy) record. A reply that parses to a truthy JSON value that is not an object is not modelled; see the `Pipeline.ProcessFolder` line below.
- The file names of the folder, passed to the service as context (music.py:46-47, 336), are left out: the oracle is indexed by the file's path only.
- Locating ffmpeg, invoking it, and handling its stderr (music.py:167-198) are the oracle `Encoder`. It says whether ffmpeg is installed and whether it exited cleanly, and it gives the bytes it left at the temporary path. A partial write is one write. An exception raised by starting the process is not modelled.
- The tag library's structural parse and `save()` (music.py:109, 285) are the oracles `Parser` and `Committer`.
- Pipeline.ProcessFile: a save that raises is taken to leave the file as it was. The tag library rewrites the file in place (music.py:285), so a failure part-way can leave the tags cleared or partly written. `Committer` gives only the new bytes or nothing.
- Pipeline.ProcessFolder: the model processes every listed file, but two exceptions escape `process_folder` and stop the run before the remaining files. One is a reply that parses to a truthy JSON value that is not an object (a list, a string or a number): `metadata.items()` (music.py:343) then raises outside any handler. The other is a failure to create the backup folder (music.py:180), which lies outside the conversion's handler.
- Tag keys are compared exactly; the tag library's case-insensitive key lookup is not modelled.
- The backup folder under the home directory, and creating it (music.py:179-180), are the parameter `backupDir`. Directories are not modelled.
- Enumerating the folder's files (music.py:300) is left out. The file list is a parameter, processed in the given order.
- `str()` coercion of date, disc and track (music.py:276-283) is left out: these fields are strings already.
- Performers and soloists are always lists of strings. A record holding a bare string, or another JSON type, is not modelled.
- The branch of `apply_metadata_to_flac` that re-validates when no tags are passed in (music.py:242-247) is not modelled. `process_folder` always passes the tags.
- Printing, `main`, argument handling and the API-key check (music.py:29-41, 358-382) are left out.
- Pipeline.SecondRunSkips assumes a save whose bytes keep the FLAC marker and parse back to the tags saved. The tag library's behaviour is not part of this model.
