/**
 * `convert_to_flac`: re-encoding a file that is not valid FLAC, backing
 * the original up under a fresh name and putting the converted file in
 * its place. The encoder is an oracle; the file system is a map from paths
 * to bytes, and every change is logged as a primitive operation so the
 * intermediate states can be inspected.
 */
module Transcoder {
  import opened Wrappers
  import opened Builtins
  import opened Files
  import opened FormatSniffer
  import opened TagStore

  // ---------------------------------------------------------------------
  // Backup naming
  // ---------------------------------------------------------------------

  /** What a backup name is made of: its folder, the source's stem and suffix, and the sniffed format's name. */
  datatype BackupPlan = BackupPlan(dir: string, stem: string, format: string, suffix: string)

  /** The part every candidate name starts with: `{stem}_original_{format}`. */
  function BackupPrefix(plan: BackupPlan): string {
    plan.stem + "_original_" + plan.format
  }

  /**
   * The `k`-th name tried: `{stem}_original_{format}{suffix}` first, then
   * `{stem}_original_{format}_{k}{suffix}` for k = 1, 2, ...
   */
  function BackupName(plan: BackupPlan, k: nat): string {
    if k == 0 then BackupPrefix(plan) + plan.suffix
    else BackupPrefix(plan) + "_" + DecimalString(k) + plan.suffix
  }

  /**
   * Every candidate name starts with the prefix and ends with the source's
   * suffix; only the plain name has nothing between them, and a numbered
   * one has `_` and the counter's digits there.
   */
  lemma {:induction false} BackupNameShape(plan: BackupPlan, k: nat)
    ensures var n := BackupName(plan, k);
      var p := BackupPrefix(plan);
      && |p| + |plan.suffix| <= |n|
      && n[..|p|] == p
      && n[|n| - |plan.suffix|..] == plan.suffix
      && (k == 0 <==> |n| == |p| + |plan.suffix|)
      && (k > 0 ==> n[|p|] == '_' && n[|p| + 1..|n| - |plan.suffix|] == DecimalString(k))
  {
    var n := BackupName(plan, k);
    var p := BackupPrefix(plan);
    if k > 0 {
      assert n == p + "_" + DecimalString(k) + plan.suffix;
      assert n[|p| + 1..|n| - |plan.suffix|] == DecimalString(k);
    }
  }

  function Candidate(plan: BackupPlan, k: nat): Path {
    Path(plan.dir, BackupName(plan, k))
  }

  /** Distinct counters give distinct names, so the search never retries a name. */
  lemma {:induction false} BackupNameInjective(plan: BackupPlan, j: nat, k: nat)
    requires BackupName(plan, j) == BackupName(plan, k)
    ensures j == k
  {
    var p := BackupPrefix(plan);
    if j != 0 && k != 0 {
      var dj := DecimalString(j);
      var dk := DecimalString(k);
      var n := BackupName(plan, j);
      assert |dj| == |dk|;
      assert dj == n[|p| + 1..|p| + 1 + |dj|];
      assert dk == n[|p| + 1..|p| + 1 + |dk|];
      DecimalStringInjective(j, k);
    }
  }

  /** The candidates with counter below `k`. */
  function Tried(plan: BackupPlan, k: nat): set<Path> {
    set j | 0 <= j < k :: Candidate(plan, j)
  }

  /** Trying one more taken candidate leaves strictly fewer taken paths untried. */
  lemma {:induction false} NextTriedShrinks(plan: BackupPlan, taken: set<Path>, k: nat)
    requires Candidate(plan, k) in taken
    ensures |taken - Tried(plan, k + 1)| < |taken - Tried(plan, k)|
  {
    var c := Candidate(plan, k);
    assert Tried(plan, k + 1) == Tried(plan, k) + {c};
    if c in Tried(plan, k) {
      var j :| 0 <= j < k && Candidate(plan, j) == c;
      BackupNameInjective(plan, j, k);
    }
    assert taken - Tried(plan, k + 1) == (taken - Tried(plan, k)) - {c};
  }

  /**
   * The counter of the first candidate at or after `k` that is not taken.
   * It exists for every finite set of taken paths.
   */
  function FirstFree(plan: BackupPlan, taken: set<Path>, k: nat): (n: nat)
    ensures k <= n
    ensures Candidate(plan, n) !in taken
    ensures forall j :: k <= j < n ==> Candidate(plan, j) in taken
    decreases |taken - Tried(plan, k)|
  {
    if Candidate(plan, k) !in taken then k
    else
      NextTriedShrinks(plan, taken, k);
      FirstFree(plan, taken, k + 1)
  }

  /** The counter the backup search settles on: the least one whose candidate is free. */
  function BackupCounter(plan: BackupPlan, taken: set<Path>): (n: nat)
    ensures Candidate(plan, n) !in taken
    ensures forall j :: 0 <= j < n ==> Candidate(plan, j) in taken
  {
    FirstFree(plan, taken, 0)
  }

  /** The least free counter is the only counter that is free with every earlier one taken. */
  lemma BackupCounterUnique(plan: BackupPlan, taken: set<Path>, n: nat)
    requires Candidate(plan, n) !in taken
    requires forall j :: 0 <= j < n ==> Candidate(plan, j) in taken
    ensures n == BackupCounter(plan, taken)
  {
  }

  /**
   * The search loop of `convert_to_flac`: start from the plain name and
   * count up while the candidate exists. The result is never an existing
   * path, and it is the first free candidate.
   */
  method ChooseBackupPath(plan: BackupPlan, taken: set<Path>) returns (backup: Path)
    ensures backup !in taken
    ensures backup == Candidate(plan, BackupCounter(plan, taken))
  {
    backup := Candidate(plan, 0);
    var counter := 1;
    ghost var tried: set<Path> := {};
    while backup in taken
      invariant 1 <= counter
      invariant backup == Candidate(plan, counter - 1)
      invariant forall j :: 0 <= j < counter - 1 ==> Candidate(plan, j) in taken
      invariant tried == Tried(plan, counter - 1)
      decreases |taken - tried|
    {
      NextTriedShrinks(plan, taken, counter - 1);
      tried := Tried(plan, counter);
      backup := Candidate(plan, counter);
      counter := counter + 1;
    }
    BackupCounterUnique(plan, taken, counter - 1);
  }

  // ---------------------------------------------------------------------
  // Conversion
  // ---------------------------------------------------------------------

  /**
   * The encoder oracle. `NotInstalled`: `ffmpeg` is not on the search path.
   * `Ran`: it ran, with a zero exit status or not, and `output` is what it
   * left at the temporary path (`None`: it wrote nothing there).
   */
  datatype Encoder = NotInstalled | Ran(exitedCleanly: bool, output: Option<seq<byte>>)

  /**
   * What a conversion did: the operations in the order they happened, the
   * resulting file system, the parsed tags of the converted file when it
   * is valid, and the backup path when the original was moved away.
   */
  datatype Conversion = Conversion(ops: seq<FsOp>, fs: FileSystem, audio: Option<TagMap>, backup: Option<Path>)

  /** The backup names for `src`, which embed the format sniffed from its current bytes. */
  function PlanFor(fs: FileSystem, src: Path, backupDir: string): BackupPlan {
    BackupPlan(backupDir, Stem(src.name), Name(DetectFile(Contents(fs, src))), Suffix(src.name))
  }

  /** The file system once the encoder has run: its output, if any, is at the temporary path. */
  function Encoded(fs: FileSystem, src: Path, output: Option<seq<byte>>): FileSystem {
    if output.Some? then fs[TempPath(src) := output.value] else fs
  }

  /**
   * `convert_to_flac`. Without an encoder nothing happens. A non-zero exit
   * removes whatever is at the temporary path; a clean exit that left no
   * file there gives up. Otherwise the original is moved to the first free
   * backup name, the temporary file is moved onto the source path, and the
   * result is validated. If moving the original raises (it does not
   * exist), the handler removes the temporary file.
   */
  function ConvertToFlac(fs: FileSystem, src: Path, backupDir: string, enc: Encoder, parse: Parser): (c: Conversion)
    ensures c.audio.Some? ==> c.backup.Some?
    ensures c.backup.Some? ==> src in c.fs && c.audio == ValidateFlac(Some(c.fs[src]), parse)
  {
    match enc
    case NotInstalled => Conversion([], fs, None, None)
    case Ran(clean, output) =>
      var temp := TempPath(src);
      var encode := if output.Some? then [Put(temp, output.value)] else [];
      var fs1 := Encoded(fs, src, output);
      if !clean then
        if temp in fs1 then Conversion(encode + [Unlink(temp)], fs1 - {temp}, None, None)
        else Conversion(encode, fs1, None, None)
      else if temp !in fs1 then Conversion(encode, fs1, None, None)
      else if src !in fs1 then Conversion(encode + [Unlink(temp)], fs1 - {temp}, None, None)
      else
        TempIsNotSource(src);
        var backup := Candidate(PlanFor(fs, src, backupDir), BackupCounter(PlanFor(fs, src, backupDir), fs1.Keys));
        var fs2 := (fs1 - {src})[backup := fs1[src]];
        var fs3 := (fs2 - {temp})[src := fs2[temp]];
        Conversion(encode + [Move(src, backup), Move(temp, src)], fs3, ValidateFlac(Some(fs3[src]), parse), Some(backup))
  }

  /** The logged operations, replayed on the starting file system, give the resulting one. */
  lemma {:induction false} ConversionReplays(fs: FileSystem, src: Path, backupDir: string, enc: Encoder, parse: Parser)
    ensures Run(fs, ConvertToFlac(fs, src, backupDir, enc, parse).ops) == Some(ConvertToFlac(fs, src, backupDir, enc, parse).fs)
  {
    var c := ConvertToFlac(fs, src, backupDir, enc, parse);
    if enc.Ran? {
      var temp := TempPath(src);
      var encode := if enc.output.Some? then [Put(temp, enc.output.value)] else [];
      var fs1 := Encoded(fs, src, enc.output);
      assert Run(fs, encode) == Some(fs1) by {
        if enc.output.Some? {
          assert Run(fs1, encode[1..]) == Some(fs1);
        }
      }
      var rest := c.ops[|encode|..];
      assert c.ops == encode + rest;
      RunAppend(fs, encode, rest);
      if rest == [Unlink(temp)] {
        assert Run(fs1 - {temp}, rest[1..]) == Some(fs1 - {temp});
      } else if rest != [] {
        TempIsNotSource(src);
        var backup := c.backup.value;
        assert rest == [Move(src, backup), Move(temp, src)];
        var fs2 := (fs1 - {src})[backup := fs1[src]];
        assert Apply(fs1, rest[0]) == Some(fs2);
        assert Apply(fs2, rest[1]) == Some(c.fs);
        assert Run(c.fs, rest[2..]) == Some(c.fs);
        assert Run(fs2, rest[1..]) == Some(c.fs);
      }
    }
  }

  /**
   * The original is moved away exactly when the encoder exited cleanly, a
   * file sits at the temporary path afterwards, and the source exists.
   */
  lemma ConversionProceedsIff(fs: FileSystem, src: Path, backupDir: string, enc: Encoder, parse: Parser)
    ensures ConvertToFlac(fs, src, backupDir, enc, parse).backup.Some? <==>
              enc.Ran? && enc.exitedCleanly && TempPath(src) in Encoded(fs, src, enc.output) && src in fs
  {
    TempIsNotSource(src);
  }

  /**
   * When the original was not moved (no encoder, an encoder failure, no
   * output, or a missing source), every path except the temporary one is
   * as it was, so the source keeps its original bytes; after a non-zero
   * exit nothing remains at the temporary path.
   */
  lemma FailedConversionKeepsSource(fs: FileSystem, src: Path, backupDir: string, enc: Encoder, parse: Parser)
    requires ConvertToFlac(fs, src, backupDir, enc, parse).backup.None?
    ensures var c := ConvertToFlac(fs, src, backupDir, enc, parse);
      && c.audio.None?
      && (forall p :: p != TempPath(src) ==> Contents(c.fs, p) == Contents(fs, p))
      && (enc.Ran? && !enc.exitedCleanly ==> TempPath(src) !in c.fs)
  {
  }

  /**
   * After a conversion that moved the original: the backup path was free,
   * it now holds the original bytes, the source path holds what the encoder
   * left at the temporary path, the temporary path is gone, and no other
   * path changed. The backup is the first free candidate, judged against
   * the file system as the encoder left it.
   */
  lemma ConversionSucceeds(fs: FileSystem, src: Path, backupDir: string, enc: Encoder, parse: Parser)
    requires ConvertToFlac(fs, src, backupDir, enc, parse).backup.Some?
    ensures var c := ConvertToFlac(fs, src, backupDir, enc, parse);
      var backup := c.backup.value;
      var temp := TempPath(src);
      var encoded := Encoded(fs, src, enc.output);
      && enc.Ran? && src in fs && temp in encoded
      && backup == Candidate(PlanFor(fs, src, backupDir), BackupCounter(PlanFor(fs, src, backupDir), encoded.Keys))
      && backup !in fs && backup != src && backup != temp
      && Contents(c.fs, backup) == Some(fs[src])
      && Contents(c.fs, src) == Some(encoded[temp])
      && temp !in c.fs
      && (forall p :: p != src && p != temp && p != backup ==> Contents(c.fs, p) == Contents(fs, p))
  {
    TempIsNotSource(src);
  }

  /**
   * The last two operations of a conversion that moved the original are
   * the move to the backup and then the move onto the source path; in the
   * state between them the original bytes are at the backup and nothing is
   * at the source path.
   */
  lemma {:induction false} MovesInOrder(fs: FileSystem, src: Path, backupDir: string, enc: Encoder, parse: Parser)
    requires ConvertToFlac(fs, src, backupDir, enc, parse).backup.Some?
    ensures var c := ConvertToFlac(fs, src, backupDir, enc, parse);
      var n := |c.ops|;
      && n >= 2
      && c.ops[n - 2] == Move(src, c.backup.value)
      && c.ops[n - 1] == Move(TempPath(src), src)
      && var mid := Run(fs, c.ops[..n - 1]);
        && mid.Some? && src in fs && src !in mid.value
        && Contents(mid.value, c.backup.value) == Some(fs[src])
  {
    var c := ConvertToFlac(fs, src, backupDir, enc, parse);
    var temp := TempPath(src);
    var backup := c.backup.value;
    var encode := if enc.output.Some? then [Put(temp, enc.output.value)] else [];
    var fs1 := Encoded(fs, src, enc.output);
    assert c.ops == encode + [Move(src, backup), Move(temp, src)];
    var n := |c.ops|;
    var fs2 := (fs1 - {src})[backup := fs1[src]];
    assert Run(fs, c.ops[..n - 1]) == Some(fs2) by {
      assert c.ops[..n - 1] == encode + [Move(src, backup)];
      assert Run(fs, encode) == Some(fs1) by {
        if enc.output.Some? {
          RunSingle(fs, encode[0]);
          assert encode == [encode[0]];
        }
      }
      RunAppend(fs, encode, [Move(src, backup)]);
      RunSingle(fs1, Move(src, backup));
    }
    assert fs1[src] == fs[src] by { TempIsNotSource(src); }
  }

  /**
   * The original bytes are never lost: in the state after every prefix of
   * the logged operations they are at the source path or at the backup.
   */
  lemma {:induction false} OriginalNeverLost(fs: FileSystem, src: Path, backupDir: string, enc: Encoder, parse: Parser, i: nat)
    requires src in fs
    requires i <= |ConvertToFlac(fs, src, backupDir, enc, parse).ops|
    ensures var c := ConvertToFlac(fs, src, backupDir, enc, parse);
      var s := Run(fs, c.ops[..i]);
      && s.Some?
      && (Contents(s.value, src) == Some(fs[src]) ||
          (c.backup.Some? && Contents(s.value, c.backup.value) == Some(fs[src])))
  {
    var c := ConvertToFlac(fs, src, backupDir, enc, parse);
    ConversionReplays(fs, src, backupDir, enc, parse);
    RunPrefixSome(fs, c.ops, i);
    TempIsNotSource(src);
    var temp := TempPath(src);
    if c.backup.None? {
      assert forall k :: 0 <= k < i ==> Untouched(c.ops[..i][k], src);
      RunFrame(fs, c.ops[..i], src);
    } else {
      var n := |c.ops|;
      var encode := if enc.output.Some? then [Put(temp, enc.output.value)] else [];
      assert c.ops == encode + [Move(src, c.backup.value), Move(temp, src)];
      if i <= n - 2 {
        assert forall k :: 0 <= k < i ==> Untouched(c.ops[..i][k], src);
        RunFrame(fs, c.ops[..i], src);
      } else if i == n - 1 {
        MovesInOrder(fs, src, backupDir, enc, parse);
      } else {
        assert c.ops[..i] == c.ops;
        ConversionSucceeds(fs, src, backupDir, enc, parse);
      }
    }
  }
}
