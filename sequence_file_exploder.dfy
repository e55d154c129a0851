/**
 * The exploder's entry point: stage standard input in a file under "/tmp/",
 * decode the file as a SequenceFile and write its values to standard output,
 * then remove the staging file. Every handled failure ends the process
 * through System.exit with the ordinal of a Status; a failure to open the
 * staging file for writing crashes instead, with an exception escaping main.
 *
 * System.exit never returns: it is modelled as the run ending at once with
 * that status, so code after it (a pending finally block in particular) does
 * not run.
 */
module SequenceFileExploder {
  import opened Wrappers
  import opened LocalFileSystem
  import opened StagingStore
  import opened StreamCapture

  /** ROOT_TMP_PATH, "/tmp/": the directory the staging file is created in and teardown stops at. */
  const RootTmpPath: Path := ["tmp"]

  datatype TempMgmt = Setup | Teardown

  /** The exit statuses, in ordinal order. */
  datatype Status = Ok | ArgsErr | TempFileMgmtErr | TempFileWrittingErr | SequenceReadErr

  function Ordinal(s: Status): nat {
    match s
    case Ok => 0
    case ArgsErr => 1
    case TempFileMgmtErr => 2
    case TempFileWrittingErr => 3
    case SequenceReadErr => 4
  }

  /**
   * How the process ends: with a status (System.exit, or main returning
   * normally, which the JVM reports as 0), or with an exception escaping main.
   */
  datatype Termination = Exit(status: Status) | UncaughtException

  /** The process exit code; the JVM exits with 1 when an exception escapes main. */
  function ExitCode(t: Termination): nat {
    match t
    case Exit(s) => Ordinal(s)
    case UncaughtException => 1
  }

  /** The statuses in declaration order. */
  const Statuses: seq<Status> := [Ok, ArgsErr, TempFileMgmtErr, TempFileWrittingErr, SequenceReadErr]

  /**
   * Status.ordinal(): every status is listed once, its ordinal is its position
   * in declaration order, so distinct statuses give distinct exit codes 0-4;
   * an exception escaping main gives exit code 1.
   */
  lemma StatusOrdinals()
    ensures forall s: Status :: s in Statuses
    ensures forall i :: 0 <= i < |Statuses| ==> Ordinal(Statuses[i]) == i
    ensures forall s: Status, t: Status :: Ordinal(s) == Ordinal(t) ==> s == t
    ensures forall s: Status :: ExitCode(Exit(s)) == Ordinal(s) < |Statuses|
    ensures ExitCode(UncaughtException) == 1
  {
    forall s: Status
      ensures s in Statuses
    {
      assert s == Statuses[Ordinal(s)];
    }
  }

  /**
   * What HadoopClient.readSequenceFile does with the staged bytes: the values
   * it writes to standard output, in container order, and whether it ended by
   * throwing (an invalid container, a decoding error). Values are written as
   * they are decoded, so a failure can follow some output.
   */
  datatype Decoding = Decoding(records: seq<string>, failed: bool)

  /**
   * What the run cannot see or choose: the successive results of reading
   * standard input, whether writing the staging file fails, and the decoder.
   */
  datatype Environment = Environment(stdin: seq<ReadStep>, writeFails: bool, decode: seq<Byte> -> Decoding)

  /** How the run ended, the filesystem it left, and the values it wrote to standard output. */
  datatype RunResult = RunResult(termination: Termination, fs: Entries, output: seq<string>)

  /** manageTemporary's result: the filesystem, and the status System.exit was called with, if it was. */
  datatype Managed = Managed(fs: Entries, exit: Option<Status>)

  /**
   * root + uniqueID; the random UUID is the parameter id. It stands for the
   * UUID's text, which is one non-empty path component with no separator; the
   * model takes any string as that single component.
   */
  function StagingPath(id: string): (path: Path)
    ensures RootTmpPath < path && |path| == |RootTmpPath| + 1
  {
    RootTmpPath + [id]
  }

  /** manageTemporary: any IOException of setup or teardown exits with TEMP_FILE_MGMT_ERR. */
  function ManagedTemporary(fs: Entries, denied: set<Path>, path: Path, mgmt: TempMgmt): Managed
    requires path != []
  {
    var e := if mgmt == Setup then AfterCreateFileAndHierarchy(fs, denied, path)
      else AfterRemoval(fs, denied, RootTmpPath, Some(path));
    Managed(e.fs, if e.completion == IOFailure then Some(TempFileMgmtErr) else None)
  }

  method ManageTemporary(fs: FileSystem, path: Path, mgmt: TempMgmt) returns (exit: Option<Status>)
    requires path != []
    modifies fs
    ensures Managed(fs.entries, exit) == ManagedTemporary(old(fs.entries), fs.denied, path, mgmt)
  {
    var c: Completion;
    match mgmt {
      case Setup =>
        c := CreateFileAndHierarchy(fs, path);
      case Teardown =>
        c := RemoveFileRecursivelyPreserveNonEmptyParent(fs, path, RootTmpPath);
    }
    exit := if c == IOFailure then Some(TempFileMgmtErr) else None;
  }

  /**
   * The whole run of main, phase by phase: setup; opening the staging file
   * for writing; capturing standard input and writing it; decoding; teardown.
   */
  function Pipeline(fs: Entries, denied: set<Path>, id: string, env: Environment): RunResult {
    var path := StagingPath(id);
    var setup := ManagedTemporary(fs, denied, path, Setup);
    if setup.exit.Some? then RunResult(Exit(setup.exit.value), setup.fs, [])
    else
      var stream := OpenForWriteEffect(setup.fs, denied, path);
      if stream.completion == IOFailure then
        // the finally block closes the buffer that was never created
        RunResult(UncaughtException, setup.fs, [])
      else
        var captured := Captured(env.stdin);
        if captured.None? || env.writeFails then
          var down := ManagedTemporary(stream.fs, denied, path, Teardown);
          RunResult(Exit(down.exit.GetOr(TempFileWrittingErr)), down.fs, [])
        else
          var staged := stream.fs[path := File(captured.value)];
          var decoding := env.decode(captured.value);
          if decoding.failed then
            // System.exit inside the catch: the finally teardown is not reached
            RunResult(Exit(SequenceReadErr), staged, decoding.records)
          else
            var down := ManagedTemporary(staged, denied, path, Teardown);
            RunResult(Exit(down.exit.GetOr(Ok)), down.fs, decoding.records)
  }

  /** main, with the unique id, the filesystem and the environment as its inputs. */
  method Run(fs: FileSystem, id: string, env: Environment) returns (termination: Termination, output: seq<string>)
    modifies fs
    ensures Pipeline(old(fs.entries), fs.denied, id, env) == RunResult(termination, fs.entries, output)
  {
    // checkArguments does nothing
    var path := StagingPath(id);
    var exit := ManageTemporary(fs, path, Setup);
    if exit.Some? {
      return Exit(exit.value), [];
    }
    var stream := fs.OpenForWrite(path);
    if stream == IOFailure {
      return UncaughtException, [];
    }
    var captured := ReadStandardInput(env.stdin);
    var written := IOFailure;
    if captured.Some? {
      written := fs.WriteAll(path, captured.value, env.writeFails);
    }
    if written == IOFailure {
      exit := ManageTemporary(fs, path, Teardown);
      return Exit(exit.GetOr(TempFileWrittingErr)), [];
    }
    var decoding := env.decode(fs.entries[path].content);
    output := decoding.records;
    if decoding.failed {
      return Exit(SequenceReadErr), output;
    }
    exit := ManageTemporary(fs, path, Teardown);
    return Exit(exit.GetOr(Ok)), output;
  }

  // -------------------------------------------------------------------------
  // Properties of a run
  // -------------------------------------------------------------------------

  /** A setup failure exits with TEMP_FILE_MGMT_ERR; nothing is read, written or decoded. */
  lemma SetupFailureEndsRun(fs: Entries, denied: set<Path>, id: string, env: Environment)
    requires AfterCreateFileAndHierarchy(fs, denied, StagingPath(id)).completion == IOFailure
    ensures Pipeline(fs, denied, id, env)
         == RunResult(Exit(TempFileMgmtErr), AfterCreateFileAndHierarchy(fs, denied, StagingPath(id)).fs, [])
  {
  }

  /**
   * The run ends with an exception escaping main exactly when setup returned
   * normally but left a directory at the staging path; it then writes nothing
   * and leaves the filesystem as setup left it.
   */
  lemma CrashExactlyWhenStagingPathIsDirectory(fs: Entries, denied: set<Path>, id: string, env: Environment)
    ensures var setup := AfterCreateFileAndHierarchy(fs, denied, StagingPath(id));
      var r := Pipeline(fs, denied, id, env);
      && (r.termination == UncaughtException <==>
            setup.completion == Returned && IsDirectory(setup.fs, StagingPath(id)))
      && (r.termination == UncaughtException ==> r.fs == setup.fs && r.output == [])
  {
  }

  /**
   * A failing read or write is followed by teardown and exits with
   * TEMP_FILE_WRITTING_ERR, with the staging file removed, unless teardown
   * itself fails (the file cannot be deleted): then the exit is
   * TEMP_FILE_MGMT_ERR. Nothing is written to standard output.
   */
  lemma CaptureFailureTearsDown(fs: Entries, denied: set<Path>, id: string, env: Environment)
    requires var setup := AfterCreateFileAndHierarchy(fs, denied, StagingPath(id));
      setup.completion == Returned && IsRegularFile(setup.fs, StagingPath(id))
    requires Captured(env.stdin).None? || env.writeFails
    ensures var r := Pipeline(fs, denied, id, env);
      && r.output == []
      && (r.termination == Exit(TempFileWrittingErr) || r.termination == Exit(TempFileMgmtErr))
      && (r.termination == Exit(TempFileMgmtErr) <==> StagingPath(id) in denied)
      && (r.termination == Exit(TempFileWrittingErr) ==> StagingPath(id) !in r.fs)
  {
    var path := StagingPath(id);
    var setup := AfterCreateFileAndHierarchy(fs, denied, path);
    var stream := OpenForWriteEffect(setup.fs, denied, path);
    RemovalOfDirectChild(stream.fs, denied, RootTmpPath, id);
  }

  /**
   * A decoding failure exits with SEQUENCE_READ_ERR from inside the catch, so
   * the teardown in the finally block never runs: the staging file survives
   * holding the captured bytes, and whatever was decoded before the failure
   * has been written.
   */
  lemma DecodeFailureKeepsStagingFile(fs: Entries, denied: set<Path>, id: string, env: Environment)
    requires var setup := AfterCreateFileAndHierarchy(fs, denied, StagingPath(id));
      setup.completion == Returned && IsRegularFile(setup.fs, StagingPath(id))
    requires Captured(env.stdin).Some? && !env.writeFails
    requires env.decode(Captured(env.stdin).value).failed
    ensures var r := Pipeline(fs, denied, id, env);
      && r.termination == Exit(SequenceReadErr)
      && r.output == env.decode(Captured(env.stdin).value).records
      && IsRegularFile(r.fs, StagingPath(id))
      && r.fs[StagingPath(id)].content == Captured(env.stdin).value
  {
  }

  /**
   * After a successful decode the output is every decoded value in container
   * order; teardown then removes the staging file and main returns normally
   * (exit code 0), unless the file cannot be deleted, which exits with
   * TEMP_FILE_MGMT_ERR after the output has been written.
   */
  lemma SuccessfulDecodeTearsDown(fs: Entries, denied: set<Path>, id: string, env: Environment)
    requires var setup := AfterCreateFileAndHierarchy(fs, denied, StagingPath(id));
      setup.completion == Returned && IsRegularFile(setup.fs, StagingPath(id))
    requires Captured(env.stdin).Some? && !env.writeFails
    requires !env.decode(Captured(env.stdin).value).failed
    ensures var r := Pipeline(fs, denied, id, env);
      && r.output == env.decode(Captured(env.stdin).value).records
      && (r.termination == Exit(Ok) || r.termination == Exit(TempFileMgmtErr))
      && (r.termination == Exit(Ok) <==> StagingPath(id) !in denied)
      && (r.termination == Exit(Ok) ==> StagingPath(id) !in r.fs)
  {
    var path := StagingPath(id);
    var setup := AfterCreateFileAndHierarchy(fs, denied, path);
    var stream := OpenForWriteEffect(setup.fs, denied, path);
    var staged := stream.fs[path := File(Captured(env.stdin).value)];
    RemovalOfDirectChild(staged, denied, RootTmpPath, id);
  }

  /**
   * Only the staging file changes: every other entry that existed is left as
   * it was, and the only entries that can appear besides it are the missing
   * directories above it that setup creates.
   */
  lemma RunConfinedToStagingPath(fs: Entries, denied: set<Path>, id: string, env: Environment)
    ensures var path := StagingPath(id);
      var r := Pipeline(fs, denied, id, env);
      && (forall q :: q != path && q in fs ==> q in r.fs && r.fs[q] == fs[q])
      && (forall q :: q != path && q in r.fs && q !in fs ==> q < path && r.fs[q] == Dir)
  {
    var path := StagingPath(id);
    var setup := AfterCreateFileAndHierarchy(fs, denied, path);
    SetupOnlyCreatesOnPath(fs, denied, path);
    if setup.completion == Returned {
      var stream := OpenForWriteEffect(setup.fs, denied, path);
      if stream.completion == Returned {
        RemovalOfDirectChild(stream.fs, denied, RootTmpPath, id);
        if Captured(env.stdin).Some? {
          var staged := stream.fs[path := File(Captured(env.stdin).value)];
          RemovalOfDirectChild(staged, denied, RootTmpPath, id);
        }
      }
    }
  }

  /**
   * With "/tmp/" in place, a fresh staging name the system lets the run
   * create and delete, and no read, write or decoding failure, the run exits
   * with 0 after writing every decoded value, and leaves the filesystem
   * exactly as it found it.
   */
  lemma CleanRunRestoresFilesystem(fs: Entries, denied: set<Path>, id: string, env: Environment)
    requires IsDirectory(fs, RootTmpPath)
    requires StagingPath(id) !in fs && StagingPath(id) !in denied
    requires Captured(env.stdin).Some? && !env.writeFails
    requires !env.decode(Captured(env.stdin).value).failed
    ensures Pipeline(fs, denied, id, env)
         == RunResult(Exit(Ok), fs, env.decode(Captured(env.stdin).value).records)
  {
    var path := StagingPath(id);
    StagingRoundTrip(fs, denied, RootTmpPath, id, Captured(env.stdin).value);
    assert fs[path := File([])][path := File([])] == fs[path := File([])];
    assert fs[path := File([])][path := File(Captured(env.stdin).value)]
        == fs[path := File(Captured(env.stdin).value)];
  }

  /**
   * Empty standard input stages an empty file and hands the decoder no bytes;
   * a decoder that rejects an empty container makes the run exit with
   * SEQUENCE_READ_ERR, and the empty staging file is left behind.
   */
  lemma EmptyInputReachesDecoderEmpty(fs: Entries, denied: set<Path>, id: string, env: Environment)
    requires IsDirectory(fs, RootTmpPath)
    requires StagingPath(id) !in fs && StagingPath(id) !in denied
    requires env.stdin == [] && !env.writeFails && env.decode([]).failed
    ensures var r := Pipeline(fs, denied, id, env);
      && r.termination == Exit(SequenceReadErr)
      && r.output == env.decode([]).records
      && r.fs == fs[StagingPath(id) := File([])]
  {
    var path := StagingPath(id);
    EmptyInputCapturesNothing();
    StagingRoundTrip(fs, denied, RootTmpPath, id, []);
    assert fs[path := File([])][path := File([])] == fs[path := File([])];
  }

  /**
   * checkArguments accepts everything, so ARGS_ERR is never the status; exit
   * code 1 therefore always means an exception escaped main.
   */
  lemma ExitCodeOneMeansCrash(fs: Entries, denied: set<Path>, id: string, env: Environment)
    ensures var t := Pipeline(fs, denied, id, env).termination;
      && t != Exit(ArgsErr)
      && (ExitCode(t) == 1 <==> t == UncaughtException)
  {
  }
}
