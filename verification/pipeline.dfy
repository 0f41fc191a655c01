/**
 * `process_folder`: for each file, validate it (converting it when it is
 * not valid FLAC), skip it when its tags already pass the gate, otherwise
 * ask the inference oracle for a record and write it unless this is a dry
 * run.
 */
module Pipeline {
  import opened Wrappers
  import opened Builtins
  import opened Files
  import opened FormatSniffer
  import opened TagStore
  import opened Transcoder

  /** `audio.save()`: the file's new bytes, or `None` when saving raises. */
  type Committer = (seq<byte>, TagMap) -> Option<seq<byte>>

  /**
   * Everything outside the program's own logic: the tag library's parse
   * and save, what the encoder does to each file, the inference service's
   * answer for each file (`None` when it fails, its reply does not parse,
   * or the record is empty), and the backup folder.
   */
  datatype Env = Env(
    parse: Parser,
    commit: Committer,
    encoder: Path -> Encoder,
    infer: Path -> Option<Metadata>,
    backupDir: string)

  /** How one file was dealt with. */
  datatype Outcome =
    | Unconvertible          // not valid FLAC and the conversion gave no valid FLAC
    | AlreadyTagged          // the gate passed: no inference, no write
    | NoMetadata             // inference gave nothing
    | Previewed(m: Metadata) // dry run: the record is shown, not written
    | Written(m: Metadata)
    | WriteFailed(m: Metadata)

  /** Whether the inference oracle was consulted for the file. */
  predicate Asked(o: Outcome) {
    o.NoMetadata? || o.Previewed? || o.Written? || o.WriteFailed?
  }

  /** Whether the file's tags were (or were attempted to be) saved. */
  predicate Wrote(o: Outcome) {
    o.Written? || o.WriteFailed?
  }

  /** The tags to work with, and the file system once any conversion is done. */
  datatype Prepared = Prepared(audio: Option<TagMap>, fs: FileSystem)

  /** Validation, falling back to conversion when the file is not valid FLAC. */
  function Prepare(fs: FileSystem, src: Path, env: Env): (p: Prepared)
    ensures p.audio.Some? ==> src in p.fs && p.audio == ValidateFlac(Some(p.fs[src]), env.parse)
  {
    var valid := ValidateFlac(Contents(fs, src), env.parse);
    if valid.Some? then Prepared(valid, fs)
    else
      var c := ConvertToFlac(fs, src, env.backupDir, env.encoder(src), env.parse);
      Prepared(c.audio, c.fs)
  }

  datatype FileResult = FileResult(outcome: Outcome, fs: FileSystem)

  /**
   * One iteration of the loop of `process_folder`. The write clears the
   * tags, sets the inferred ones and saves; a save that raises is reported
   * and leaves the file as it was.
   */
  function ProcessFile(fs: FileSystem, src: Path, dryRun: bool, env: Env): (r: FileResult)
    ensures r.outcome.Written? ==> !dryRun && env.infer(src) == Some(r.outcome.m)
    ensures forall p :: p != src ==> Contents(r.fs, p) == Contents(Prepare(fs, src, env).fs, p)
  {
    var prepared := Prepare(fs, src, env);
    match prepared.audio
    case None => FileResult(Unconvertible, prepared.fs)
    case Some(audio) =>
      if HasProperMetadata(audio).0 then FileResult(AlreadyTagged, prepared.fs)
      else
        match env.infer(src)
        case None => FileResult(NoMetadata, prepared.fs)
        case Some(m) =>
          if dryRun then FileResult(Previewed(m), prepared.fs)
          else
            match Contents(prepared.fs, src)
            case None => FileResult(WriteFailed(m), prepared.fs)
            case Some(bytes) =>
              match env.commit(bytes, ApplyMetadata(audio, m))
              case None => FileResult(WriteFailed(m), prepared.fs)
              case Some(saved) => FileResult(Written(m), prepared.fs[src := saved])
  }

  /**
   * The routing: the oracle is consulted exactly when the file has (or was
   * converted to) valid tags that fail the gate.
   */
  lemma InferenceAskedIff(fs: FileSystem, src: Path, dryRun: bool, env: Env)
    ensures var p := Prepare(fs, src, env);
      Asked(ProcessFile(fs, src, dryRun, env).outcome) <==> p.audio.Some? && !HasProperMetadata(p.audio.value).0
  {
  }

  /** A file that is not valid FLAC and whose conversion yields nothing valid is skipped. */
  lemma SkipWhenConversionFails(fs: FileSystem, src: Path, dryRun: bool, env: Env)
    requires ValidateFlac(Contents(fs, src), env.parse).None?
    requires ConvertToFlac(fs, src, env.backupDir, env.encoder(src), env.parse).audio.None?
    ensures var r := ProcessFile(fs, src, dryRun, env);
      && r.outcome == Unconvertible
      && r.fs == ConvertToFlac(fs, src, env.backupDir, env.encoder(src), env.parse).fs
  {
  }

  /**
   * A file whose tags pass the gate is skipped without consulting the
   * inference oracle and without a write: the result is the same whatever
   * the oracle or the save would have done.
   */
  lemma TaggedSkipIgnoresInference(fs: FileSystem, src: Path, dryRun: bool, env: Env, other: Env)
    requires var p := Prepare(fs, src, env); p.audio.Some? && HasProperMetadata(p.audio.value).0
    requires other == env.(infer := other.infer, commit := other.commit)
    ensures ProcessFile(fs, src, dryRun, env) == ProcessFile(fs, src, dryRun, other)
    ensures ProcessFile(fs, src, dryRun, env) == FileResult(AlreadyTagged, Prepare(fs, src, env).fs)
  {
    assert Prepare(fs, src, env) == Prepare(fs, src, other);
  }

  /**
   * A dry run never saves tags: the file system is the one validation left
   * it in, which for a file that was already valid FLAC is the starting one.
   */
  lemma DryRunNeverWrites(fs: FileSystem, src: Path, env: Env)
    ensures var r := ProcessFile(fs, src, true, env);
      && !Wrote(r.outcome)
      && r.fs == Prepare(fs, src, env).fs
      && (ValidateFlac(Contents(fs, src), env.parse).Some? ==> r.fs == fs)
  {
  }

  /**
   * A live run on a file with valid tags that fail the gate, for which the
   * oracle gives a record, saves the file's tags cleared and replaced by
   * that record: the saved bytes take the file's place and the outcome is
   * `Written`, or the save raises, the file is left as it was and the
   * outcome is `WriteFailed`.
   */
  lemma LiveRunWrites(fs: FileSystem, src: Path, env: Env, m: Metadata)
    requires var p := Prepare(fs, src, env); p.audio.Some? && !HasProperMetadata(p.audio.value).0
    requires env.infer(src) == Some(m)
    ensures var p := Prepare(fs, src, env);
      var r := ProcessFile(fs, src, false, env);
      var saved := env.commit(p.fs[src], ApplyMetadata(p.audio.value, m));
      && (saved.Some? ==> r == FileResult(Written(m), p.fs[src := saved.value]))
      && (saved.None? ==> r == FileResult(WriteFailed(m), p.fs))
  {
  }

  /**
   * A dry run still converts: a file that is not valid FLAC, with an
   * encoder that exits cleanly and writes output, has its original moved to
   * a backup and the encoder's output put in its place, although the run
   * announces that no file will be modified.
   */
  lemma DryRunStillConverts(fs: FileSystem, src: Path, env: Env, out: seq<byte>)
    requires src in fs && ValidateFlac(Some(fs[src]), env.parse).None?
    requires env.encoder(src) == Ran(true, Some(out))
    ensures var r := ProcessFile(fs, src, true, env);
      var c := ConvertToFlac(fs, src, env.backupDir, env.encoder(src), env.parse);
      && c.backup.Some?
      && Contents(r.fs, src) == Some(out)
      && Contents(r.fs, c.backup.value) == Some(fs[src])
  {
    ConversionProceedsIff(fs, src, env.backupDir, env.encoder(src), env.parse);
    ConversionSucceeds(fs, src, env.backupDir, env.encoder(src), env.parse);
    DryRunNeverWrites(fs, src, env);
  }

  /**
   * A save that round-trips: the saved bytes still start with the FLAC
   * marker and parse back to exactly the tags saved.
   */
  ghost predicate SaveRoundTrips(env: Env) {
    forall bytes, tags :: env.commit(bytes, tags).Some? ==>
      Slice(env.commit(bytes, tags).value, 0, 4) == FlacMarker &&
      env.parse(env.commit(bytes, tags).value) == Some(tags)
  }

  /**
   * Once a record that provides every role has been written with a save
   * that round-trips, processing the file again skips it as already tagged.
   */
  lemma {:induction false} SecondRunSkips(fs: FileSystem, src: Path, dryRun: bool, again: bool, env: Env)
    requires SaveRoundTrips(env)
    requires ProcessFile(fs, src, dryRun, env).outcome.Written?
    requires forall role :: Provides(ProcessFile(fs, src, dryRun, env).outcome.m, role)
    ensures ProcessFile(ProcessFile(fs, src, dryRun, env).fs, src, again, env).outcome == AlreadyTagged
  {
    var r := ProcessFile(fs, src, dryRun, env);
    var m := r.outcome.m;
    var p := Prepare(fs, src, env);
    var tags := ApplyMetadata(p.audio.value, m);
    var saved := env.commit(p.fs[src], tags).value;
    assert r.fs == p.fs[src := saved];
    assert Contents(r.fs, src) == Some(saved);
    assert ValidateFlac(Contents(r.fs, src), env.parse) == Some(tags);
    WrittenTagsComplete(p.audio.value, m);
  }

  // ---------------------------------------------------------------------
  // The folder
  // ---------------------------------------------------------------------

  datatype FolderResult = FolderResult(outcomes: seq<Outcome>, fs: FileSystem)

  /** The files processed in order, each seeing the file system the previous ones left. */
  function ProcessAll(fs: FileSystem, files: seq<Path>, dryRun: bool, env: Env): (r: FolderResult)
    ensures |r.outcomes| == |files|
    ensures dryRun ==> forall i :: 0 <= i < |r.outcomes| ==> !Wrote(r.outcomes[i])
    decreases |files|
  {
    if |files| == 0 then FolderResult([], fs)
    else
      var first := ProcessFile(fs, files[0], dryRun, env);
      DryRunNeverWrites(fs, files[0], env);
      var rest := ProcessAll(first.fs, files[1..], dryRun, env);
      FolderResult([first.outcome] + rest.outcomes, rest.fs)
  }

  /**
   * `process_folder`: a missing folder or a folder with no FLAC files does
   * nothing; otherwise every listed file is processed once, in order.
   */
  method ProcessFolder(fs: FileSystem, folderExists: bool, files: seq<Path>, dryRun: bool, env: Env)
    returns (outcomes: seq<Outcome>, fs': FileSystem)
    ensures !folderExists ==> outcomes == [] && fs' == fs
    ensures folderExists ==> FolderResult(outcomes, fs') == ProcessAll(fs, files, dryRun, env)
  {
    outcomes, fs' := [], fs;
    if !folderExists || |files| == 0 {
      assert folderExists ==> ProcessAll(fs, files, dryRun, env) == FolderResult([], fs);
      return;
    }
    var i := 0;
    ghost var whole := ProcessAll(fs, files, dryRun, env);
    assert files[0..] == files;
    while i < |files|
      invariant 0 <= i <= |files|
      invariant whole.outcomes == outcomes + ProcessAll(fs', files[i..], dryRun, env).outcomes
      invariant whole.fs == ProcessAll(fs', files[i..], dryRun, env).fs
    {
      var r := ProcessFile(fs', files[i], dryRun, env);
      FolderStep(whole, outcomes, fs', files, i, dryRun, env);
      outcomes := outcomes + [r.outcome];
      fs' := r.fs;
      i := i + 1;
    }
    assert files[i..] == [];
    assert outcomes + [] == outcomes;
  }

  /** The loop's invariant survives processing one more file. */
  lemma {:induction false} FolderStep(whole: FolderResult, done: seq<Outcome>, fs: FileSystem, files: seq<Path>, i: nat,
                                      dryRun: bool, env: Env)
    requires i < |files|
    requires whole.outcomes == done + ProcessAll(fs, files[i..], dryRun, env).outcomes
    requires whole.fs == ProcessAll(fs, files[i..], dryRun, env).fs
    ensures var r := ProcessFile(fs, files[i], dryRun, env);
      && whole.outcomes == (done + [r.outcome]) + ProcessAll(r.fs, files[i + 1..], dryRun, env).outcomes
      && whole.fs == ProcessAll(r.fs, files[i + 1..], dryRun, env).fs
  {
    var r := ProcessFile(fs, files[i], dryRun, env);
    var rest := ProcessAll(r.fs, files[i + 1..], dryRun, env);
    ProcessAllStep(fs, files, i, dryRun, env);
    assert done + ([r.outcome] + rest.outcomes) == (done + [r.outcome]) + rest.outcomes;
  }

  /** Processing the files from position `i` is processing file `i`, then the files after it. */
  lemma {:induction false} ProcessAllStep(fs: FileSystem, files: seq<Path>, i: nat, dryRun: bool, env: Env)
    requires i < |files|
    ensures var first := ProcessFile(fs, files[i], dryRun, env);
      var rest := ProcessAll(first.fs, files[i + 1..], dryRun, env);
      ProcessAll(fs, files[i..], dryRun, env) == FolderResult([first.outcome] + rest.outcomes, rest.fs)
  {
    assert files[i..][0] == files[i];
    assert files[i..][1..] == files[i + 1..];
  }

  /**
   * A dry run over files that are all valid FLAC changes nothing at all:
   * there is nothing to convert and nothing is saved.
   */
  lemma {:induction false} DryRunOnValidFilesChangesNothing(fs: FileSystem, files: seq<Path>, env: Env)
    requires forall i :: 0 <= i < |files| ==> ValidateFlac(Contents(fs, files[i]), env.parse).Some?
    ensures ProcessAll(fs, files, true, env).fs == fs
    decreases |files|
  {
    if |files| > 0 {
      DryRunNeverWrites(fs, files[0], env);
      assert forall i :: 0 <= i < |files[1..]| ==> files[1..][i] == files[i + 1];
      DryRunOnValidFilesChangesNothing(fs, files[1..], env);
    }
  }
}
