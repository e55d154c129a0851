/**
 * The staging store: creating the staging file with its missing parent
 * directories (createFileAndHierarchy) and removing it again on the way out
 * (removeFileRecursivelyPreserveNonEmptyParent), which climbs from the file
 * towards the staging root deleting what has become empty.
 */
module StagingStore {
  import opened Wrappers
  import opened LocalFileSystem

  // -------------------------------------------------------------------------
  // Setup: createFileAndHierarchy
  // -------------------------------------------------------------------------

  /** getParentFile().mkdirs(), whose result is ignored, then createNewFile(). */
  function AfterCreateFileAndHierarchy(fs: Entries, denied: set<Path>, path: Path): Effect
    requires path != []
  {
    CreateNewFileEffect(MkdirsEffect(fs, denied, path[..|path| - 1]), denied, path)
  }

  /** The path always has a parent here: main passes the root followed by a file name. */
  method CreateFileAndHierarchy(fs: FileSystem, path: Path) returns (c: Completion)
    requires path != []
    modifies fs
    ensures Effect(fs.entries, c) == AfterCreateFileAndHierarchy(old(fs.entries), fs.denied, path)
  {
    fs.Mkdirs(path[..|path| - 1]);
    c := fs.CreateNewFile(path);
  }

  /**
   * Setup returns normally exactly when an entry exists at path afterwards,
   * which happens when one was there already or when every directory level of
   * the parent was a directory or could be made and the file itself is not
   * refused. After a normal return the parent is a directory; an entry that
   * was already there (a file with its contents) is left exactly as it was and
   * nothing else changes; otherwise the new entry is an empty file.
   */
  lemma SetupOutcome(fs: Entries, denied: set<Path>, path: Path)
    requires WellFormed(fs) && path != []
    ensures var e := AfterCreateFileAndHierarchy(fs, denied, path);
      && (e.completion == Returned <==> path in e.fs)
      && (e.completion == Returned <==>
            path in fs || (ChainCreatable(fs, denied, path[..|path| - 1]) && path !in denied))
      && (e.completion == Returned ==> IsDirectory(e.fs, path[..|path| - 1]))
      && (path in fs ==> e == Effect(fs, Returned))
      && (path !in fs && e.completion == Returned ==> e.fs[path] == File([]))
  {
    var parent := path[..|path| - 1];
    var withDirs := MkdirsEffect(fs, denied, parent);
    MkdirsOnlyAddsDirectories(fs, denied, parent);
    MkdirsMakesDirectoryIff(fs, denied, parent);
    if path in fs {
      assert IsDirectory(fs, parent);
      assert withDirs == fs;
    } else {
      assert path !in withDirs;
    }
  }

  /** Setup creates nothing off the path: every new entry is the file or one of its parents, and old entries are untouched. */
  lemma SetupOnlyCreatesOnPath(fs: Entries, denied: set<Path>, path: Path)
    requires path != []
    ensures var e := AfterCreateFileAndHierarchy(fs, denied, path);
      && (forall q :: q in fs ==> q in e.fs && e.fs[q] == fs[q])
      && (forall q :: q in e.fs && q !in fs ==> q <= path && (q != path ==> e.fs[q] == Dir))
  {
    var parent := path[..|path| - 1];
    MkdirsOnlyAddsDirectories(fs, denied, parent);
    var withDirs := MkdirsEffect(fs, denied, parent);
    var e := AfterCreateFileAndHierarchy(fs, denied, path);
    forall q | q in e.fs && q !in fs
      ensures q <= path && (q != path ==> e.fs[q] == Dir)
    {
      if q != path {
        assert q in withDirs;
        assert q <= parent;
      }
    }
  }

  lemma SetupKeepsWellFormed(fs: Entries, denied: set<Path>, path: Path)
    requires WellFormed(fs) && path != []
    ensures WellFormed(AfterCreateFileAndHierarchy(fs, denied, path).fs)
  {
    MkdirsKeepsWellFormed(fs, denied, path[..|path| - 1]);
  }

  /**
   * mkdirs's result is ignored, so a setup that fails on the file itself
   * still leaves behind the directories it made: "/" alone, with "/tmp/x"
   * refused, ends with "/tmp" created and an IOException.
   */
  lemma SetupFailureKeepsCreatedDirectories()
    ensures var fs: Entries := map[[] := Dir];
      AfterCreateFileAndHierarchy(fs, {["tmp", "x"]}, ["tmp", "x"])
        == Effect(fs[["tmp"] := Dir], IOFailure)
  {
    var fs: Entries := map[[] := Dir];
    assert ["tmp"][..0] == [];
    assert MkdirsEffect(fs, {["tmp", "x"]}, ["tmp"]) == fs[["tmp"] := Dir];
    assert ["tmp", "x"][..1] == ["tmp"];
  }

  // -------------------------------------------------------------------------
  // Teardown: removeFileRecursivelyPreserveNonEmptyParent
  // -------------------------------------------------------------------------

  /** The measure of the ascent: a null path is 0, any other path one more than its length. */
  function Remaining(p: Option<Path>): nat {
    if p.None? then 0 else |p.value| + 1
  }

  /**
   * The ascent from p. It stops normally at a null path or at root; a
   * regular file is deleted (deleteIfExists, any IOException propagates); a
   * directory is deleted (delete) unless it is not empty, which ends the
   * ascent normally; a missing entry is passed over. Every step continues
   * with the parent, a strictly shorter path.
   */
  function AfterRemoval(fs: Entries, denied: set<Path>, root: Path, p: Option<Path>): Effect
    decreases Remaining(p)
  {
    if p.None? || p.value == root then Effect(fs, Returned)
    else
      var q := p.value;
      if IsRegularFile(fs, q) then
        if DeleteOutcomeOf(fs, denied, q) == Deleted then AfterRemoval(fs - {q}, denied, root, Parent(q))
        else Effect(fs, IOFailure)
      else if IsDirectory(fs, q) then
        match DeleteOutcomeOf(fs, denied, q)
        case Deleted => AfterRemoval(fs - {q}, denied, root, Parent(q))
        case DirectoryNotEmpty => Effect(fs, Returned)
        case _ => Effect(fs, IOFailure)
      else AfterRemoval(fs, denied, root, Parent(q))
  }

  /**
   * The recursion of the source written as a loop over the current path; the
   * loop ends because every step moves to the parent.
   */
  method RemoveFileRecursivelyPreserveNonEmptyParent(fs: FileSystem, path: Path, root: Path)
    returns (c: Completion)
    modifies fs
    ensures Effect(fs.entries, c) == AfterRemoval(old(fs.entries), fs.denied, root, Some(path))
  {
    var current: Option<Path> := Some(path);
    while current.Some? && current.value != root
      invariant AfterRemoval(fs.entries, fs.denied, root, current)
             == AfterRemoval(old(fs.entries), fs.denied, root, Some(path))
      decreases Remaining(current)
    {
      var p := current.value;
      if IsRegularFile(fs.entries, p) {
        var done := fs.DeleteIfExists(p);
        if done == IOFailure {
          return IOFailure;
        }
      } else if IsDirectory(fs.entries, p) {
        var outcome := fs.Delete(p);
        if outcome == DirectoryNotEmpty {
          return Returned;
        } else if outcome != Deleted {
          return IOFailure;
        }
      }
      current := Parent(p);
    }
    c := Returned;
  }

  /**
   * q is on the ascent from path: a prefix of path that the climb reaches
   * before it meets root.
   */
  ghost predicate OnAscent(q: Path, path: Path, root: Path) {
    q <= path && !(q <= root && root <= path)
  }

  /**
   * Teardown creates nothing and changes no contents; the only entries it
   * removes lie on the ascent from path, short of root.
   */
  lemma {:induction false} RemovalOnlyDeletesOnAscent(fs: Entries, denied: set<Path>, root: Path, path: Path)
    ensures var e := AfterRemoval(fs, denied, root, Some(path));
      && (forall q :: q in e.fs ==> q in fs && e.fs[q] == fs[q])
      && (forall q :: q in fs && q !in e.fs ==> OnAscent(q, path, root))
    decreases |path|
  {
    var e := AfterRemoval(fs, denied, root, Some(path));
    var o := DeleteOutcomeOf(fs, denied, path);
    if path == root || (path in fs && o != Deleted) {
      assert e.fs == fs;
    } else if path == [] {
      assert e == AfterRemoval(fs, denied, root, None);
    } else {
      var mid := if o == Deleted then fs - {path} else fs;
      var up := path[..|path| - 1];
      assert e == AfterRemoval(mid, denied, root, Some(up));
      RemovalOnlyDeletesOnAscent(mid, denied, root, up);
      forall q | q in fs && q !in e.fs
        ensures OnAscent(q, path, root)
      {
        if q != path {
          assert OnAscent(q, up, root);
          assert root <= path ==> root <= up;
        }
      }
    }
  }

  /**
   * Teardown of root changes nothing; teardown of anything below root leaves
   * root and every directory above it exactly as they were.
   */
  lemma RemovalKeepsRootAndAbove(fs: Entries, denied: set<Path>, root: Path, path: Path)
    requires root <= path
    ensures path == root ==> AfterRemoval(fs, denied, root, Some(path)) == Effect(fs, Returned)
    ensures var e := AfterRemoval(fs, denied, root, Some(path));
      forall q :: q <= root ==> (q in e.fs <==> q in fs) && (q in fs ==> e.fs[q] == fs[q])
  {
    RemovalOnlyDeletesOnAscent(fs, denied, root, path);
  }

  /**
   * A leaf (a regular file, or a directory with nothing in it) other than
   * root is gone after teardown exactly when the system lets it be deleted;
   * when it does not, teardown fails at once with nothing changed.
   */
  lemma RemovalDeletesLeaf(fs: Entries, denied: set<Path>, root: Path, path: Path)
    requires path in fs && path != root
    requires IsRegularFile(fs, path) || !HasChildren(fs, path)
    ensures var e := AfterRemoval(fs, denied, root, Some(path));
      && (path !in e.fs <==> Deletable(denied, path))
      && (!Deletable(denied, path) ==> e == Effect(fs, IOFailure))
  {
    if Deletable(denied, path) {
      RemovalOnlyDeletesOnAscent(fs - {path}, denied, root, path[..|path| - 1]);
    }
  }

  /**
   * A directory on the ascent that holds an entry off the path (one the run
   * did not create) is never removed: it, everything above it and all of its
   * contents off the path are left as they were.
   */
  lemma {:induction false} RemovalStopsAtNonEmptyDirectory(
    fs: Entries, denied: set<Path>, root: Path, path: Path, d: Path, c: Path)
    requires d <= path && IsDirectory(fs, d)
    requires c in fs && IsChild(c, d) && !(c <= path)
    ensures var e := AfterRemoval(fs, denied, root, Some(path));
      && (forall q :: q <= d && q in fs ==> q in e.fs && e.fs[q] == fs[q])
      && (forall q :: d <= q && !(q <= path) && q in fs ==> q in e.fs && e.fs[q] == fs[q])
    decreases |path|
  {
    var e := AfterRemoval(fs, denied, root, Some(path));
    RemovalOnlyDeletesOnAscent(fs, denied, root, path);
    if path == root {
    } else if path == d {
      assert HasChildren(fs, d);
      assert e.fs == fs;
    } else {
      var o := DeleteOutcomeOf(fs, denied, path);
      var up := path[..|path| - 1];
      if path in fs && o != Deleted {
        assert e.fs == fs;
      } else {
        var mid := if o == Deleted then fs - {path} else fs;
        assert e == AfterRemoval(mid, denied, root, Some(up));
        assert d <= up;
        assert !(c <= up);
        RemovalStopsAtNonEmptyDirectory(mid, denied, root, up, d, c);
      }
    }
  }

  /**
   * A non-empty directory on the ascent ends it normally: Files.delete's
   * DirectoryNotEmptyException is caught and the method returns. This holds
   * whenever nothing below that directory on the path is refused, since only
   * a refused deletion can end the climb with an IOException first.
   */
  lemma {:induction false} RemovalEndsNormallyAtNonEmptyDirectory(
    fs: Entries, denied: set<Path>, root: Path, path: Path, d: Path, c: Path)
    requires d <= path && IsDirectory(fs, d)
    requires c in fs && IsChild(c, d) && !(c <= path)
    requires forall q :: d < q <= path ==> q !in denied
    ensures AfterRemoval(fs, denied, root, Some(path)).completion == Returned
    decreases |path|
  {
    if path == root {
    } else if path == d {
      assert HasChildren(fs, d);
    } else {
      var o := DeleteOutcomeOf(fs, denied, path);
      var up := path[..|path| - 1];
      assert d <= up && !(c <= up);
      if o == Deleted {
        RemovalEndsNormallyAtNonEmptyDirectory(fs - {path}, denied, root, up, d, c);
      } else if path !in fs {
        RemovalEndsNormallyAtNonEmptyDirectory(fs, denied, root, up, d, c);
      } else {
        assert o == DirectoryNotEmpty;
      }
    }
  }

  /** The entries on the path strictly below root. */
  function ChainBelow(root: Path, path: Path): (chain: set<Path>)
    requires root <= path
    ensures forall q :: q in chain <==> root < q <= path
  {
    var chain := set i | |root| < i <= |path| :: path[..i];
    assert forall q :: root < q <= path ==> q == path[..|q|];
    chain
  }

  /**
   * When every level from path up to root holds nothing but the next level
   * of the path (the file itself a regular file or an empty directory) and
   * none of them is refused, teardown removes all of them and stops at root
   * without error: it leaves no empty directory behind.
   */
  lemma {:induction false} RemovalClearsEmptiedChain(fs: Entries, denied: set<Path>, root: Path, path: Path)
    requires root < path
    requires forall i :: |root| < i <= |path| ==> path[..i] in fs && path[..i] !in denied
    requires forall i :: |root| < i < |path| ==> fs[path[..i]].Dir?
    requires forall i, c :: |root| < i < |path| && c in fs && IsChild(c, path[..i]) ==> c <= path
    requires IsRegularFile(fs, path) || !HasChildren(fs, path)
    ensures AfterRemoval(fs, denied, root, Some(path)) == Effect(fs - ChainBelow(root, path), Returned)
    decreases |path|
  {
    assert path[..|path|] == path;
    assert DeleteOutcomeOf(fs, denied, path) == Deleted;
    var rest := fs - {path};
    var up := path[..|path| - 1];
    assert AfterRemoval(fs, denied, root, Some(path)) == AfterRemoval(rest, denied, root, Some(up));
    if up == root {
      assert ChainBelow(root, path) == {path};
    } else {
      assert root < up;
      forall i | |root| < i <= |up|
        ensures up[..i] == path[..i]
      {
      }
      forall i, c | |root| < i < |up| && c in rest && IsChild(c, up[..i])
        ensures c <= up
      {
        assert up[..i] == path[..i];
        assert c <= path;
        assert c == path[..|c|];
      }
      forall c | c in fs && IsChild(c, up)
        ensures c == path
      {
        assert up == path[..|up|];
        assert c <= path;
      }
      assert !HasChildren(rest, up);
      RemovalClearsEmptiedChain(rest, denied, root, up);
      assert ChainBelow(root, path) == ChainBelow(root, up) + {path};
    }
  }

  /** Teardown keeps the filesystem a tree. */
  lemma {:induction false} RemovalKeepsWellFormed(fs: Entries, denied: set<Path>, root: Path, path: Path)
    requires WellFormed(fs)
    ensures WellFormed(AfterRemoval(fs, denied, root, Some(path)).fs)
    decreases |path|
  {
    var o := DeleteOutcomeOf(fs, denied, path);
    if path == root || path == [] || (path in fs && o != Deleted) {
    } else {
      var up := path[..|path| - 1];
      if o == Deleted {
        if fs[path].File? {
          FileHasNoChildren(fs, path);
        }
        RemovalOfLeafKeepsWellFormed(fs, path);
        RemovalKeepsWellFormed(fs - {path}, denied, root, up);
      } else {
        RemovalKeepsWellFormed(fs, denied, root, up);
      }
    }
  }

  /** A missing entry is passed over: the ascent goes on with its parent. */
  lemma RemovalSkipsMissing(fs: Entries, denied: set<Path>, root: Path, path: Path)
    requires path !in fs && path != root
    ensures AfterRemoval(fs, denied, root, Some(path)) == AfterRemoval(fs, denied, root, Parent(path))
  {
  }

  /**
   * Teardown of a regular file directly under root: the file is deleted and
   * the climb stops at root, or the deletion is refused and nothing changes.
   */
  lemma RemovalOfDirectChild(fs: Entries, denied: set<Path>, root: Path, name: string)
    requires IsRegularFile(fs, root + [name])
    ensures var path := root + [name];
      AfterRemoval(fs, denied, root, Some(path))
        == if path in denied then Effect(fs, IOFailure) else Effect(fs - {path}, Returned)
  {
    var path := root + [name];
    assert path[..|path| - 1] == root;
  }

  /**
   * Setup and teardown undo each other for a fresh file directly under an
   * existing root, whatever the file was filled with in between.
   */
  lemma StagingRoundTrip(fs: Entries, denied: set<Path>, root: Path, name: string, content: seq<Byte>)
    requires IsDirectory(fs, root) && root + [name] !in fs && root + [name] !in denied
    ensures var path := root + [name];
      && AfterCreateFileAndHierarchy(fs, denied, path) == Effect(fs[path := File([])], Returned)
      && AfterRemoval(fs[path := File(content)], denied, root, Some(path)) == Effect(fs, Returned)
  {
    var path := root + [name];
    assert path[..|path| - 1] == root;
    var staged := fs[path := File(content)];
    RemovalOfDirectChild(staged, denied, root, name);
    assert staged - {path} == fs;
  }
}
