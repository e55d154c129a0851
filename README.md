# SequenceFileExploder, modelled in Dafny

SequenceFileExploder is a command-line tool that gives Hive-style `explode()`
over a Hadoop SequenceFile. It reads the file's raw bytes from standard
input, and the SequenceFile reader needs random access, so the tool stages
those bytes in a file under `/tmp/`. It then has the file decoded and writes
every value to standard output. At the end it removes the staging file and
any parent directories that are now empty, going up until it reaches `/tmp/`
or a directory that still holds something. Every handled failure ends the
process with `System.exit` and the ordinal of a `Status`. A failure to open
the staging file for writing crashes instead: an exception escapes `main`.

This project models that lifecycle and proves properties of it:

- `LocalFileSystem` is the filesystem. It maps absolute paths to nodes; a
  path is its list of name components and `[]` is `/`. A node is a file
  with its bytes, or a directory. The JDK calls the tool makes (`mkdirs`,
  `createNewFile`, `Files.delete`, `Files.deleteIfExists`,
  `new FileOutputStream`, the bulk write) are methods of a `FileSystem`
  object that update its `entries` in place. The operating system's refusals
  (permissions, read-only mounts) are an oracle: the set `denied` of paths
  that cannot be created or deleted. Deleting `/` always fails.
- `StagingStore` holds setup (`createFileAndHierarchy`) and teardown
  (`removeFileRecursivelyPreserveNonEmptyParent`). Teardown's recursion on
  the parent path is a loop, proved against the recursive function
  `AfterRemoval`. Lemmas about that function show what teardown removes and
  what it preserves.
- `StreamCapture` is the loop that copies standard input into an in-memory
  buffer. Standard input is a list of read results: each is either a chunk of
  at most 32 KiB or an `IOException`. After the list, every read returns -1.
- `SequenceFileExploder` holds the `Status` and `TempMgmt` enums,
  `manageTemporary` and `main`. `main` is the method `Run`, proved against
  the function `Pipeline`. `System.exit` ends the run at once with its
  status. An exception that escapes `main` is the outcome
  `UncaughtException`, which the JVM reports as exit code 1.

Where the code and the documented design disagree, the model follows the
code:

- A decoding failure calls `System.exit(4)` inside the `catch`
  (SequenceFileExploder.java:184-185). The `finally` teardown at lines
  187-190 therefore never runs, and the staging file survives. The design
  says teardown runs on every path after setup.
- A teardown `IOException` calls `System.exit(2)` inside `manageTemporary`
  (line 129). So it replaces the status 3 of a capture failure (line 172),
  and the normal end after a successful decode. The design says teardown
  never changes the status.
- When `new FileOutputStream` fails (line 155), `baos` is still null, and
  the `finally` at lines 166-168 throws a `NullPointerException`. This
  exception is not an `IOException`, so it escapes `main`: no teardown runs.
  The JVM's exit code 1 for this is the same as the ordinal of `ARGS_ERR`,
  which the tool never reports. After a normal setup this happens exactly
  when the staging path is already a directory.
- Setup ignores the result of `mkdirs` (line 79). When `createNewFile` then
  fails, the directories `mkdirs` made are left behind. The design says
  nothing is created on a setup failure.
- Teardown stops when the path equals the root (line 97). It does not stop
  at entries directly under the root.
- The root is always the constant `/tmp/`. The arguments are ignored
  (lines 65-66, 142).
- Values are written to standard output with no line separator between them
  (HadoopClient.java:73). The design says one line per value.

## Model

| member | source | states |
|---|---|---|
| `LocalFileSystem.Parent` | SequenceFileExploder/src/main/java/com/impala2go/seq/SequenceFileExploder.java:109 | `getParent()` is null only for `/`; any other parent is a strictly shorter prefix, one component less |
| `LocalFileSystem.MkdirsOnlyAddsDirectories` | SequenceFileExploder/src/main/java/com/impala2go/seq/SequenceFileExploder.java:79 | `mkdirs` changes no existing entry; every entry it adds is a directory on the way down to the requested one |
| `LocalFileSystem.MkdirsMakesDirectoryIff` | SequenceFileExploder/src/main/java/com/impala2go/seq/SequenceFileExploder.java:79 | on a well-formed tree, the requested directory exists after `mkdirs` if and only if each of its levels was a directory or was missing and creatable |
| `LocalFileSystem.FileSystem.Mkdirs` | SequenceFileExploder/src/main/java/com/impala2go/seq/SequenceFileExploder.java:79 | the filesystem becomes the `mkdirs` effect on the old one; the ignored boolean result is not returned |
| `LocalFileSystem.FileSystem.CreateNewFile` | SequenceFileExploder/src/main/java/com/impala2go/seq/SequenceFileExploder.java:81 | an existing entry is kept as it is; a missing one becomes an empty file when its parent is a directory and creation is allowed; otherwise `IOException` |
| `LocalFileSystem.FileSystem.Delete` | SequenceFileExploder/src/main/java/com/impala2go/seq/SequenceFileExploder.java:104-105 | `Files.delete` reports a missing entry, a non-empty directory, a refusal or success; the entry is removed only on success |
| `LocalFileSystem.FileSystem.DeleteIfExists` | SequenceFileExploder/src/main/java/com/impala2go/seq/SequenceFileExploder.java:101 | like `Files.delete`, except that a missing entry returns normally |
| `LocalFileSystem.FileSystem.OpenForWrite` | SequenceFileExploder/src/main/java/com/impala2go/seq/SequenceFileExploder.java:155 | `new FileOutputStream` truncates a regular file or creates a missing one; otherwise it fails and changes nothing |
| `LocalFileSystem.FileSystem.WriteAll` | SequenceFileExploder/src/main/java/com/impala2go/seq/SequenceFileExploder.java:165-168 | the staging file then holds exactly the buffer; the modelled write failure changes nothing and reports `IOException` |
| `StagingStore.CreateFileAndHierarchy` | SequenceFileExploder/src/main/java/com/impala2go/seq/SequenceFileExploder.java:75-82 | the filesystem and completion are those of `mkdirs` on the parent, then `createNewFile` on the path |
| `StagingStore.SetupOutcome` | SequenceFileExploder/src/main/java/com/impala2go/seq/SequenceFileExploder.java:77-81 | setup returns normally if and only if an entry exists at the path afterwards. For a missing path, that holds when the parent chain could be made and the file is allowed. After a normal return the parent is a directory. An existing entry keeps its contents and nothing changes. A new entry is an empty file |
| `StagingStore.SetupOnlyCreatesOnPath` | SequenceFileExploder/src/main/java/com/impala2go/seq/SequenceFileExploder.java:75-82 | setup changes no existing entry; it adds only the path itself and directories on the way to it |
| `StagingStore.SetupKeepsWellFormed` | SequenceFileExploder/src/main/java/com/impala2go/seq/SequenceFileExploder.java:75-82 | setup keeps the filesystem a tree |
| `StagingStore.SetupFailureKeepsCreatedDirectories` | SequenceFileExploder/src/main/java/com/impala2go/seq/SequenceFileExploder.java:79-81 | an example where `createNewFile` fails and the directory made by `mkdirs` stays |
| `StagingStore.RemoveFileRecursivelyPreserveNonEmptyParent` | SequenceFileExploder/src/main/java/com/impala2go/seq/SequenceFileExploder.java:93-110 | the loop's final filesystem and completion are those of the recursive ascent `AfterRemoval`; it terminates because every step moves to a strictly shorter path, and a null parent ends it |
| `StagingStore.RemovalOnlyDeletesOnAscent` | SequenceFileExploder/src/main/java/com/impala2go/seq/SequenceFileExploder.java:93-110 | teardown creates nothing and changes no contents; every entry it removes is a prefix of the path reached before root |
| `StagingStore.RemovalKeepsRootAndAbove` | SequenceFileExploder/src/main/java/com/impala2go/seq/SequenceFileExploder.java:97-98 | teardown of root changes nothing; for a path below root, root and every entry above it are unchanged |
| `StagingStore.RemovalDeletesLeaf` | SequenceFileExploder/src/main/java/com/impala2go/seq/SequenceFileExploder.java:100-104 | a regular file or an empty directory (other than root) is gone afterwards if and only if it may be deleted; when it may not, the exception propagates: teardown fails at once with nothing changed |
| `StagingStore.RemovalStopsAtNonEmptyDirectory` | SequenceFileExploder/src/main/java/com/impala2go/seq/SequenceFileExploder.java:102-107 | a directory on the ascent that holds an entry off the path is kept. So are everything above it and all of its contents off the path |
| `StagingStore.RemovalEndsNormallyAtNonEmptyDirectory` | SequenceFileExploder/src/main/java/com/impala2go/seq/SequenceFileExploder.java:102-107 | a directory on the ascent that holds an entry off the path ends teardown normally (the `DirectoryNotEmptyException` is caught and the method returns), provided nothing below it on the path is refused |
| `StagingStore.RemovalClearsEmptiedChain` | SequenceFileExploder/src/main/java/com/impala2go/seq/SequenceFileExploder.java:100-109 | when each level below root holds only the next level of the path and none is refused, teardown removes exactly those levels and returns normally |
| `StagingStore.RemovalKeepsWellFormed` | SequenceFileExploder/src/main/java/com/impala2go/seq/SequenceFileExploder.java:93-110 | teardown keeps the filesystem a tree |
| `StagingStore.RemovalSkipsMissing` | SequenceFileExploder/src/main/java/com/impala2go/seq/SequenceFileExploder.java:100-109 | a missing entry (not root) is passed over and the ascent continues with its parent |
| `StagingStore.RemovalOfDirectChild` | SequenceFileExploder/src/main/java/com/impala2go/seq/SequenceFileExploder.java:97-109 | for a regular file directly under root, teardown removes the file and stops at root, or fails with nothing changed when the file may not be deleted |
| `StagingStore.StagingRoundTrip` | SequenceFileExploder/src/main/java/com/impala2go/seq/SequenceFileExploder.java:75-110 | for a fresh name under an existing root, setup adds just an empty file, and teardown after any contents gives back the original filesystem |
| `StreamCapture.FirstStop` | SequenceFileExploder/src/main/java/com/impala2go/seq/SequenceFileExploder.java:161 | the index of the first read that fails or returns no bytes: every earlier read returned a positive count |
| `StreamCapture.ReadStandardInput` | SequenceFileExploder/src/main/java/com/impala2go/seq/SequenceFileExploder.java:157-163 | the buffer is the in-order concatenation of the chunks read before the first read returning 0 or -1; the result is None when that read threw instead |
| `StreamCapture.FirstChunkComesFirst` | SequenceFileExploder/src/main/java/com/impala2go/seq/SequenceFileExploder.java:161-163 | a chunk that continues the loop comes before everything read after it, and a later failure still fails the capture |
| `StreamCapture.EmptyInputCapturesNothing` | SequenceFileExploder/src/main/java/com/impala2go/seq/SequenceFileExploder.java:161 | empty standard input leaves an empty buffer |
| `StreamCapture.LaterReadsIgnored` | SequenceFileExploder/src/main/java/com/impala2go/seq/SequenceFileExploder.java:161 | reads offered after the one that ends the loop change neither where it stops nor what it captures |
| `StreamCapture.CapturedSizeBound` | SequenceFileExploder/src/main/java/com/impala2go/seq/SequenceFileExploder.java:157-162 | the captured size is at least one byte and at most 32 KiB for each chunk read before the loop stopped |
| `SequenceFileExploder.StatusOrdinals` | SequenceFileExploder/src/main/java/com/impala2go/seq/SequenceFileExploder.java:50-56 | `Status.ordinal()` numbers the five statuses 0 to 4 in declaration order, so distinct statuses exit with distinct codes; an exception escaping `main` exits with 1 |
| `SequenceFileExploder.StagingPath` | SequenceFileExploder/src/main/java/com/impala2go/seq/SequenceFileExploder.java:142-144 | the staging path is a direct child of `/tmp/` |
| `SequenceFileExploder.ManageTemporary` | SequenceFileExploder/src/main/java/com/impala2go/seq/SequenceFileExploder.java:118-131 | runs setup, or teardown up to `/tmp/`; an `IOException` becomes an exit with `TEMP_FILE_MGMT_ERR` |
| `SequenceFileExploder.Run` | SequenceFileExploder/src/main/java/com/impala2go/seq/SequenceFileExploder.java:136-192 | `main`'s termination, final filesystem and output are those of `Pipeline`, phase by phase |
| `SequenceFileExploder.SetupFailureEndsRun` | SequenceFileExploder/src/main/java/com/impala2go/seq/SequenceFileExploder.java:128-129 | a setup `IOException` exits with 2, nothing is written, and the filesystem is as setup left it |
| `SequenceFileExploder.CrashExactlyWhenStagingPathIsDirectory` | SequenceFileExploder/src/main/java/com/impala2go/seq/SequenceFileExploder.java:153-169 | an exception escapes `main` if and only if setup returned normally and left a directory at the staging path; then nothing is written and no teardown runs |
| `SequenceFileExploder.CaptureFailureTearsDown` | SequenceFileExploder/src/main/java/com/impala2go/seq/SequenceFileExploder.java:170-172 | a read or write `IOException` is followed by teardown and ends with 3, with the staging file removed, or with 2 exactly when the file cannot be deleted; nothing is output |
| `SequenceFileExploder.DecodeFailureKeepsStagingFile` | SequenceFileExploder/src/main/java/com/impala2go/seq/SequenceFileExploder.java:177-190 | a decoder failure exits with 4, keeping the values already written; the staging file survives with the captured bytes |
| `SequenceFileExploder.SuccessfulDecodeTearsDown` | SequenceFileExploder/src/main/java/com/impala2go/seq/SequenceFileExploder.java:179-191 | after a successful decode the output is every decoded value in order. The run then ends normally with the staging file removed, or with 2 exactly when the file cannot be deleted |
| `SequenceFileExploder.RunConfinedToStagingPath` | SequenceFileExploder/src/main/java/com/impala2go/seq/SequenceFileExploder.java:136-192 | for every input, no entry other than the staging file is changed or removed; other new entries are only directories above it |
| `SequenceFileExploder.CleanRunRestoresFilesystem` | SequenceFileExploder/src/main/java/com/impala2go/seq/SequenceFileExploder.java:136-192 | with `/tmp/` present, a fresh allowed name and no failure, the run ends normally, writes all decoded values and leaves the filesystem as it found it |
| `SequenceFileExploder.EmptyInputReachesDecoderEmpty` | SequenceFileExploder/src/main/java/com/impala2go/seq/SequenceFileExploder.java:157-185 | empty input stages an empty file and hands the decoder no bytes. A decoder that rejects an empty container gives exit 4, and the empty staging file stays |
| `SequenceFileExploder.ExitCodeOneMeansCrash` | SequenceFileExploder/src/main/java/com/impala2go/seq/SequenceFileExploder.java:65-66 | `ARGS_ERR` is never the status, so exit code 1 means exactly that an exception escaped `main` |

## Left out

- The SequenceFile decoder (HadoopClient.java): the container format, codecs, reflective value classes and the process-wide Hadoop `Configuration`. It is an oracle from the staged bytes to the values it writes and whether it fails.
- Real standard input and output: reads are a list of results; output is the list of values written. Flushing and closing `System.out` (line 182), and any exception from closing it, are not modelled.
- `UUID.randomUUID` (line 143): the unique id is a parameter. Two runs getting distinct ids is not modelled.
- `checkArguments` and the argument array: they have no effect.
- A write that fails part-way: a failed write leaves the staging file as the open left it, empty.
- Why the system refuses a creation or deletion is not modelled. Refusals are the fixed set `denied`: one set for every operation, and writing to an existing regular file is always allowed.
- `Files.delete` on a directory is modelled as checking for emptiness before permission, so a non-empty directory ends the ascent normally even when the directory itself is refused (`RemovalEndsNormallyAtNonEmptyDirectory`).
- Symbolic links, other file types and the string form of paths: a path is a list of components, and `endsWith("/tmp/")` is equality with the root.
- Concurrent runs, signals and external changes to the filesystem during a run.
- Memory use of the in-memory buffer, and writing it in one call rather than streaming it.
