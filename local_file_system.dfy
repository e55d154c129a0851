/**
 * An abstract local filesystem: a map from absolute paths to nodes, and the
 * java.io.File / java.nio.file.Files calls the exploder makes on it.
 *
 * A path is the list of its name components below "/", so [] is "/" itself and
 * the parent of a path drops its last component ([] has no parent, as
 * Path.getParent() returns null for "/"). Which paths the operating system
 * refuses to create or delete (permissions, read-only mounts) is not something
 * the program can see or decide; it is the oracle `denied` carried by the
 * filesystem.
 */
module LocalFileSystem {
  import opened Wrappers

  type Byte = bv8

  type Path = seq<string>

  datatype Node = File(content: seq<Byte>) | Dir

  type Entries = map<Path, Node>

  /** How a filesystem call that may throw IOException ended. */
  datatype Completion = Returned | IOFailure

  /** The filesystem after a call, with how the call ended. */
  datatype Effect = Effect(fs: Entries, completion: Completion)

  /** What Files.delete reports: success, or the exception it throws. */
  datatype DeleteOutcome = Deleted | NoSuchFile | DirectoryNotEmpty | AccessDenied

  function Parent(p: Path): (r: Option<Path>)
    ensures r.None? <==> p == []
    ensures r.Some? ==> r.value < p && |r.value| + 1 == |p|
  {
    if p == [] then None else Some(p[..|p| - 1])
  }

  predicate IsChild(c: Path, d: Path) {
    |c| == |d| + 1 && d < c
  }

  /** Files.isRegularFile */
  predicate IsRegularFile(fs: Entries, p: Path) {
    p in fs && fs[p].File?
  }

  /** Files.isDirectory */
  predicate IsDirectory(fs: Entries, p: Path) {
    p in fs && fs[p].Dir?
  }

  predicate HasChildren(fs: Entries, d: Path) {
    exists c :: c in fs && IsChild(c, d)
  }

  /** A tree: "/" is a directory and every other entry sits in a directory. */
  ghost predicate WellFormed(fs: Entries) {
    && IsDirectory(fs, [])
    && forall p :: p in fs && p != [] ==> IsDirectory(fs, p[..|p| - 1])
  }

  /** The operating system lets this entry be removed ("/" never can be). */
  predicate Deletable(denied: set<Path>, p: Path) {
    p != [] && p !in denied
  }

  /** A new entry can be made at p: it is missing, its parent is a directory, and it is not refused. */
  predicate Creatable(fs: Entries, denied: set<Path>, p: Path) {
    p != [] && p !in fs && IsDirectory(fs, p[..|p| - 1]) && p !in denied
  }

  /**
   * File.mkdirs(): nothing if d exists; otherwise the missing ancestors of d
   * and d itself are created top down, stopping at the first one that cannot
   * be made (an ancestor that is a regular file, a refused creation).
   */
  function MkdirsEffect(fs: Entries, denied: set<Path>, d: Path): Entries
    decreases |d|
  {
    if d in fs || d == [] then fs
    else
      var above := MkdirsEffect(fs, denied, d[..|d| - 1]);
      if Creatable(above, denied, d) then above[d := Dir] else above
  }

  /**
   * File.createNewFile(): an existing entry is left alone (the call returns
   * false, the file is not truncated); a missing one becomes an empty file when
   * its parent is a directory; otherwise IOException.
   */
  function CreateNewFileEffect(fs: Entries, denied: set<Path>, p: Path): Effect {
    if p in fs then Effect(fs, Returned)
    else if Creatable(fs, denied, p) then Effect(fs[p := File([])], Returned)
    else Effect(fs, IOFailure)
  }

  /** Files.delete(p): what it reports; the entry is removed exactly when it reports Deleted. */
  function DeleteOutcomeOf(fs: Entries, denied: set<Path>, p: Path): DeleteOutcome {
    if p !in fs then NoSuchFile
    else if fs[p].Dir? && HasChildren(fs, p) then DirectoryNotEmpty
    else if !Deletable(denied, p) then AccessDenied
    else Deleted
  }

  /** new FileOutputStream(p): truncates a regular file, creates a missing one, fails otherwise. */
  function OpenForWriteEffect(fs: Entries, denied: set<Path>, p: Path): Effect {
    if IsRegularFile(fs, p) || Creatable(fs, denied, p) then Effect(fs[p := File([])], Returned)
    else Effect(fs, IOFailure)
  }

  /** Every proper prefix of an entry of a well-formed filesystem is a directory. */
  lemma {:induction false} AncestorsAreDirectories(fs: Entries, p: Path, i: nat)
    requires WellFormed(fs) && p in fs && i < |p|
    ensures IsDirectory(fs, p[..i])
    decreases |p|
  {
    var up := p[..|p| - 1];
    assert IsDirectory(fs, up);
    if i < |up| {
      AncestorsAreDirectories(fs, up, i);
      assert up[..i] == p[..i];
    } else {
      assert up == p[..i];
    }
  }

  /** A regular file has no entries below it in a well-formed filesystem. */
  lemma FileHasNoChildren(fs: Entries, p: Path)
    requires WellFormed(fs) && IsRegularFile(fs, p)
    ensures !HasChildren(fs, p)
  {
    forall c | c in fs && |c| == |p| + 1
      ensures !IsChild(c, p)
    {
      assert IsDirectory(fs, c[..|c| - 1]);
      assert (p < c) == (c[..|c| - 1] == p);
    }
  }

  /** Removing a regular file or an empty directory (never "/") keeps the tree well formed. */
  lemma RemovalOfLeafKeepsWellFormed(fs: Entries, p: Path)
    requires WellFormed(fs) && p in fs && p != [] && !HasChildren(fs, p)
    ensures WellFormed(fs - {p})
  {
    var rest := fs - {p};
    forall q | q in rest && q != []
      ensures IsDirectory(rest, q[..|q| - 1])
    {
      assert IsDirectory(fs, q[..|q| - 1]);
    }
  }

  /**
   * mkdirs only adds entries, each of them a directory on the way down to d;
   * nothing that existed changes.
   */
  lemma {:induction false} MkdirsOnlyAddsDirectories(fs: Entries, denied: set<Path>, d: Path)
    ensures var e := MkdirsEffect(fs, denied, d);
      && (forall q :: q in fs ==> q in e && e[q] == fs[q])
      && (forall q :: q in e && q !in fs ==> q <= d && e[q] == Dir)
    decreases |d|
  {
    if d in fs || d == [] {
    } else {
      var up := d[..|d| - 1];
      MkdirsOnlyAddsDirectories(fs, denied, up);
      var above := MkdirsEffect(fs, denied, up);
      forall q | q in above && q !in fs
        ensures q <= d
      {
        assert q <= up;
      }
    }
  }

  lemma MkdirsKeepsWellFormed(fs: Entries, denied: set<Path>, d: Path)
    requires WellFormed(fs)
    ensures WellFormed(MkdirsEffect(fs, denied, d))
    decreases |d|
  {
    if d in fs || d == [] {
    } else {
      MkdirsKeepsWellFormed(fs, denied, d[..|d| - 1]);
    }
  }

  /**
   * Every directory level of d is already a directory, or is missing and may
   * be created.
   */
  ghost predicate ChainCreatable(fs: Entries, denied: set<Path>, d: Path) {
    forall i :: 0 <= i <= |d| ==>
      IsDirectory(fs, d[..i]) || (d[..i] != [] && d[..i] !in fs && d[..i] !in denied)
  }

  /** After mkdirs, d is a directory exactly when every level of it was a directory or could be made. */
  lemma {:induction false} MkdirsMakesDirectoryIff(fs: Entries, denied: set<Path>, d: Path)
    requires WellFormed(fs)
    ensures IsDirectory(MkdirsEffect(fs, denied, d), d) <==> ChainCreatable(fs, denied, d)
    decreases |d|
  {
    if d in fs {
      if fs[d].Dir? {
        forall i | 0 <= i <= |d|
          ensures IsDirectory(fs, d[..i])
        {
          if i < |d| {
            AncestorsAreDirectories(fs, d, i);
          } else {
            assert d[..i] == d;
          }
        }
      } else {
        assert d[..|d|] == d;
      }
    } else if d == [] {
    } else {
      var up := d[..|d| - 1];
      MkdirsMakesDirectoryIff(fs, denied, up);
      MkdirsOnlyAddsDirectories(fs, denied, up);
      var above := MkdirsEffect(fs, denied, up);
      assert d[..|d|] == d;
      assert forall i :: 0 <= i <= |up| ==> up[..i] == d[..i];
      if ChainCreatable(fs, denied, d) {
        assert ChainCreatable(fs, denied, up);
        assert d !in above;
      }
      if IsDirectory(MkdirsEffect(fs, denied, d), d) {
        assert Creatable(above, denied, d);
        forall i | 0 <= i <= |d|
          ensures IsDirectory(fs, d[..i]) || (d[..i] != [] && d[..i] !in fs && d[..i] !in denied)
        {
          if i <= |up| {
            assert up[..i] == d[..i];
          }
        }
      }
    }
  }

  /**
   * The filesystem the program runs against. Its entries change in place as
   * the program creates, writes and deletes; `denied` never changes. Each
   * method is the in-place form of the effect function above it; the
   * properties are proved about those functions.
   */
  class FileSystem {
    var entries: Entries
    const denied: set<Path>

    constructor (entries: Entries, denied: set<Path>)
      ensures this.entries == entries && this.denied == denied
    {
      this.entries := entries;
      this.denied := denied;
    }

    /** File.mkdirs(); the caller ignores its boolean result, so none is returned. */
    method Mkdirs(d: Path)
      modifies this
      ensures entries == MkdirsEffect(old(entries), denied, d)
    {
      entries := MkdirsEffect(entries, denied, d);
    }

    /** File.createNewFile() */
    method CreateNewFile(p: Path) returns (c: Completion)
      modifies this
      ensures Effect(entries, c) == CreateNewFileEffect(old(entries), denied, p)
    {
      var e := CreateNewFileEffect(entries, denied, p);
      entries, c := e.fs, e.completion;
    }

    /** Files.delete(p) */
    method Delete(p: Path) returns (o: DeleteOutcome)
      modifies this
      ensures o == DeleteOutcomeOf(old(entries), denied, p)
      ensures entries == if o == Deleted then old(entries) - {p} else old(entries)
    {
      o := DeleteOutcomeOf(entries, denied, p);
      if o == Deleted {
        entries := entries - {p};
      }
    }

    /** Files.deleteIfExists(p): like delete, except that a missing entry is not an error. */
    method DeleteIfExists(p: Path) returns (c: Completion)
      modifies this
      ensures var o := DeleteOutcomeOf(old(entries), denied, p);
        && c == (if o == Deleted || o == NoSuchFile then Returned else IOFailure)
        && entries == (if o == Deleted then old(entries) - {p} else old(entries))
    {
      var o := Delete(p);
      c := if o == Deleted || o == NoSuchFile then Returned else IOFailure;
    }

    /** new FileOutputStream(p) */
    method OpenForWrite(p: Path) returns (c: Completion)
      modifies this
      ensures Effect(entries, c) == OpenForWriteEffect(old(entries), denied, p)
    {
      var e := OpenForWriteEffect(entries, denied, p);
      entries, c := e.fs, e.completion;
    }

    /**
     * Writing bytes through the stream opened on p, then closing it. Whether
     * the device accepts the write is not visible to the program: `fails`.
     */
    method WriteAll(p: Path, bytes: seq<Byte>, fails: bool) returns (c: Completion)
      modifies this
      ensures c == (if fails then IOFailure else Returned)
      ensures entries == if fails then old(entries) else old(entries)[p := File(bytes)]
    {
      if fails {
        c := IOFailure;
      } else {
        entries := entries[p := File(bytes)];
        c := Returned;
      }
    }
  }
}
