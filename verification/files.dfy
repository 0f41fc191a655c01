/**
 * The slice of `pathlib` and of the file system the converter touches:
 * a path's stem and suffix, the hidden temporary output next to a source
 * file, and a file system as a map from paths to contents changed by
 * three primitive operations (write, unlink, move).
 */
module Files {
  import opened Wrappers
  import opened Builtins

  /** A file's directory and its final component (`Path.parent`, `Path.name`). */
  datatype Path = Path(dir: string, name: string)

  /** `s.rfind(c)`: the last index holding `c`, or -1. */
  function RFind(s: string, c: char): (i: int)
    ensures -1 <= i < |s|
    ensures i >= 0 ==> s[i] == c
    ensures forall j :: i < j < |s| ==> s[j] != c
  {
    if |s| == 0 then -1
    else if s[|s| - 1] == c then |s| - 1
    else RFind(s[..|s| - 1], c)
  }

  /** The last `c` in `s` sits at `i` exactly when `s[i] == c` and none follows it. */
  lemma {:induction false} RFindAt(s: string, c: char, i: nat)
    requires i < |s| && s[i] == c
    requires forall j :: i < j < |s| ==> s[j] != c
    ensures RFind(s, c) == i
  {
  }

  /** Whether a name has a suffix: its last dot is neither the first nor the last character. */
  predicate HasSuffix(name: string) {
    0 < RFind(name, '.') < |name| - 1
  }

  /** `PurePath.suffix`: from the last dot on, or empty. */
  function Suffix(name: string): string {
    if HasSuffix(name) then name[RFind(name, '.')..] else ""
  }

  /** `PurePath.stem`: the name without its suffix. */
  function Stem(name: string): string {
    if HasSuffix(name) then name[..RFind(name, '.')] else name
  }

  /**
   * The stem and the suffix split the name: the suffix is empty or a dot
   * followed by at least one dot-free character, a non-empty name has a
   * non-empty stem, and the stem is the whole name exactly when there is
   * no suffix.
   */
  lemma StemSuffixSplit(name: string)
    ensures Stem(name) + Suffix(name) == name
    ensures Suffix(name) == [] || (|Suffix(name)| >= 2 && Suffix(name)[0] == '.' && Stem(name) != [])
    ensures forall j :: 0 < j < |Suffix(name)| ==> Suffix(name)[j] != '.'
    ensures name != [] ==> Stem(name) != []
    ensures Suffix(name) == [] <==> Stem(name) == name
  {
  }

  /** The name of the converter's temporary output: `.{stem}_converted.flac`. */
  function TempName(name: string): string {
    "." + Stem(name) + "_converted.flac"
  }

  /** The temporary output lives next to the source. */
  function TempPath(src: Path): Path {
    Path(src.dir, TempName(src.name))
  }

  /** The temporary name's own stem is the source's stem, dotted in front and marked as converted. */
  lemma {:induction false} TempNameStem(name: string)
    ensures Suffix(TempName(name)) == ".flac"
    ensures Stem(TempName(name)) == "." + Stem(name) + "_converted"
  {
    var t := TempName(name);
    var i := |t| - 5;
    assert t[i..] == ".flac";
    RFindAt(t, '.', i);
  }

  /** The temporary output never overwrites its own source. */
  lemma {:induction false} TempIsNotSource(src: Path)
    ensures TempPath(src) != src
  {
    TempNameStem(src.name);
  }

  /** A file system: each existing path and its bytes. Directories are not modelled. */
  type FileSystem = map<Path, seq<byte>>

  /** A file's bytes, or `None` when it does not exist (opening it raises). */
  function Contents(fs: FileSystem, p: Path): Option<seq<byte>> {
    if p in fs then Some(fs[p]) else None
  }

  /** The mutations the converter performs. */
  datatype FsOp =
    | Put(path: Path, bytes: seq<byte>)
    | Unlink(path: Path)
    | Move(from: Path, to: Path)

  /**
   * One operation: `Put` creates or overwrites, `Unlink` removes an
   * existing file, `Move` renames an existing file (replacing a file at the
   * destination). Unlinking or moving a missing file raises: `None`.
   */
  function Apply(fs: FileSystem, op: FsOp): (r: Option<FileSystem>)
    ensures op.Put? ==> r == Some(fs[op.path := op.bytes])
    ensures r.None? <==> (op.Unlink? && op.path !in fs) || (op.Move? && op.from !in fs)
    ensures op.Move? && r.Some? ==>
              op.to in r.value && r.value[op.to] == fs[op.from] &&
              (op.from != op.to ==> op.from !in r.value)
    ensures op.Unlink? && r.Some? ==> op.path !in r.value
    ensures r.Some? ==> forall p :: Untouched(op, p) ==> (p in r.value <==> p in fs) && (p in fs ==> r.value[p] == fs[p])
  {
    match op
    case Put(p, b) => Some(fs[p := b])
    case Unlink(p) => if p in fs then Some(fs - {p}) else None
    case Move(a, b) => if a in fs then Some((fs - {a})[b := fs[a]]) else None
  }

  /** The paths an operation writes or removes. */
  predicate Untouched(op: FsOp, p: Path) {
    match op
    case Put(q, _) => p != q
    case Unlink(q) => p != q
    case Move(a, b) => p != a && p != b
  }

  /** Operations applied in order; the first that raises stops the run. */
  function Run(fs: FileSystem, ops: seq<FsOp>): Option<FileSystem>
    decreases |ops|
  {
    if |ops| == 0 then Some(fs)
    else
      match Apply(fs, ops[0])
      case None => None
      case Some(fs') => Run(fs', ops[1..])
  }

  /** A one-operation log is that operation. */
  lemma {:induction false} RunSingle(fs: FileSystem, op: FsOp)
    ensures Run(fs, [op]) == Apply(fs, op)
  {
    match Apply(fs, op)
    case None =>
    case Some(fs') => assert Run(fs', [op][1..]) == Some(fs');
  }

  /** Running a log in two pieces is running it whole. */
  lemma {:induction false} RunAppend(fs: FileSystem, a: seq<FsOp>, b: seq<FsOp>)
    ensures Run(fs, a + b) == (match Run(fs, a) case None => None case Some(mid) => Run(mid, b))
    decreases |a|
  {
    if |a| > 0 {
      assert (a + b)[0] == a[0];
      assert (a + b)[1..] == a[1..] + b;
      match Apply(fs, a[0])
      case None =>
      case Some(fs') => RunAppend(fs', a[1..], b);
    } else {
      assert a + b == b;
    }
  }

  /** A log that runs to the end runs through every one of its prefixes. */
  lemma {:induction false} RunPrefixSome(fs: FileSystem, ops: seq<FsOp>, i: nat)
    requires i <= |ops| && Run(fs, ops).Some?
    ensures Run(fs, ops[..i]).Some?
  {
    assert ops == ops[..i] + ops[i..];
    RunAppend(fs, ops[..i], ops[i..]);
  }

  /** A path no operation of a log touches keeps its contents, or its absence, through the run. */
  lemma {:induction false} RunFrame(fs: FileSystem, ops: seq<FsOp>, p: Path)
    requires forall k :: 0 <= k < |ops| ==> Untouched(ops[k], p)
    requires Run(fs, ops).Some?
    ensures Contents(Run(fs, ops).value, p) == Contents(fs, p)
    decreases |ops|
  {
    if |ops| > 0 {
      var fs' := Apply(fs, ops[0]).value;
      RunFrame(fs', ops[1..], p);
    }
  }
}
