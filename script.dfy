/**
 * The synchronizer itself: `calculate_md5_checksum` and
 * `synchronize_directories`, each pass proved to leave the filesystem in the
 * state its specification function describes.
 */
module Script {
  import opened Wrappers
  import opened Paths
  import opened Os
  import opened Mirror
  import opened PropagationSteps
  import opened PruningSteps

  /** The size of each `file.read` of the checksum loop. */
  const ChunkSize: nat := 4096

  type Digest = seq<byte>

  /**
   * Stands in for `hexdigest()` of the bytes fed to the hash. MD5 is modelled
   * as telling contents apart, so this is the bytes themselves.
   */
  function Fingerprint(data: seq<byte>): Digest {
    data
  }

  /** How a run ends: normally, or with an exception raised while dealing with a source entry. */
  datatype Outcome = Done | Failed(at: Path)

  /**
   * `calculate_md5_checksum(p)`: reads the file in 4096-byte chunks until an
   * empty read and digests what was read. Opening a missing path or a
   * directory raises, which is `None` here.
   */
  method CalculateMd5Checksum(fs: FileSystem, p: Path) returns (digest: Option<Digest>)
    ensures IsFile(fs.entries, p) ==> digest == Some(Fingerprint(fs.entries[p].content))
    ensures !IsFile(fs.entries, p) ==> digest == None
  {
    if !IsFile(fs.entries, p) {
      return None;
    }
    var data := fs.entries[p].content;
    var absorbed: seq<byte> := [];
    var pos := 0;
    while true
      invariant pos <= |data| && absorbed == data[..pos]
      decreases |data| - pos
    {
      var chunk := Read(data, pos, ChunkSize);
      if chunk == [] {
        break;
      }
      absorbed := absorbed + chunk;
      pos := pos + |chunk|;
    }
    assert data[..|data|] == data;
    return Some(Fingerprint(absorbed));
  }

  /**
   * One file `f` listed in the source directory `d`: it is copied to its
   * replica path when that is missing or has a different checksum. Raises
   * (and changes nothing) exactly when the step is blocked.
   */
  method CopyFile(fs: FileSystem, ghost s: Tree, src: Path, rep: Path, ghost es: set<Path>, d: Path, r: Path, f: Path)
    returns (outcome: Outcome)
    requires fs.Valid() && WellFormed(s) && Disjoint(src, rep) && SourceSide(s, src, es)
    requires src in es && d in es && IsDir(s, d) && f in FilesIn(s, d) && f !in es
    requires r == Rebase(d, src, rep)
    requires fs.entries == PropagatedOver(s, src, rep, es)
    requires forall e :: e in es ==> !BlockedAt(s, src, rep, e)
    modifies fs
    ensures fs.Valid() && Under(f, src) && SourceSide(s, src, es + {f})
    ensures outcome.Done? <==> !BlockedAt(s, src, rep, f)
    ensures outcome.Done? ==> forall e :: e in es + {f} ==> !BlockedAt(s, src, rep, e)
    ensures outcome.Done? ==> fs.entries == PropagatedOver(s, src, rep, es + {f})
    ensures outcome.Failed? ==> outcome == Failed(f) && fs.entries == old(fs.entries)
  {
    var rf := r + [f[|f| - 1]];
    CopyStep(s, src, rep, es, d, f);
    var needsCopy := true;
    if rf in fs.entries {
      var sourceDigest := CalculateMd5Checksum(fs, f);
      var replicaDigest := CalculateMd5Checksum(fs, rf);
      if replicaDigest.None? {
        return Failed(f);
      }
      needsCopy := sourceDigest != replicaDigest;
    }
    if needsCopy {
      var ok := fs.Copy2(f, rf);
      if !ok {
        return Failed(f);
      }
    }
    outcome := Done;
  }

  /**
   * The files `os.walk` lists in the source directory `d`, whose replica
   * counterpart `r` has just been seen to or made to exist: each is copied
   * when its replica is missing or its checksum differs. Returns the source
   * entries dealt with; it raises at a file whose step is blocked.
   */
  method CopyFiles(fs: FileSystem, ghost s: Tree, src: Path, rep: Path, ghost es: set<Path>, d: Path, r: Path, listed: set<Path>)
    returns (outcome: Outcome, ghost handled: set<Path>)
    requires fs.Valid() && WellFormed(s) && Disjoint(src, rep) && SourceSide(s, src, es)
    requires src in es && d in es && IsDir(s, d) && Under(d, src) && listed == FilesIn(s, d) && es !! listed
    requires r == Rebase(d, src, rep)
    requires fs.entries == PropagatedOver(s, src, rep, es)
    requires forall e :: e in es ==> !BlockedAt(s, src, rep, e)
    modifies fs
    ensures fs.Valid()
    ensures SourceSide(s, src, handled) && fs.entries == PropagatedOver(s, src, rep, handled)
    ensures es <= handled <= es + listed
    ensures outcome.Done? ==> handled == es + listed
    ensures forall e :: e in handled ==> !BlockedAt(s, src, rep, e)
    ensures outcome.Failed? ==> outcome.at in listed && outcome.at !in handled
    ensures outcome.Failed? ==> Under(outcome.at, src) && BlockedAt(s, src, rep, outcome.at)
  {
    handled := es;
    var files := listed;
    while files != {}
      invariant files <= listed && handled !! files && handled + files == es + listed && es <= handled
      invariant fs.Valid() && SourceSide(s, src, handled)
      invariant fs.entries == PropagatedOver(s, src, rep, handled)
      invariant forall e :: e in handled ==> !BlockedAt(s, src, rep, e)
      decreases |files|
    {
      var f :| f in files;
      PendingStep(es, listed, handled, files, f);
      outcome := CopyFile(fs, s, src, rep, handled, d, r, f);
      if outcome.Failed? {
        return outcome, handled;
      }
      handled := handled + {f};
      files := files - {f};
    }
    outcome := Done;
  }

  /**
   * The replica counterpart `r` of the source directory `d` is created with
   * `os.makedirs` when it does not exist. Raises (and changes nothing)
   * exactly when that step is blocked.
   */
  method MakeReplicaDir(fs: FileSystem, ghost s: Tree, src: Path, rep: Path, ghost visited: set<Path>, d: Path, r: Path)
    returns (ok: bool)
    requires fs.Valid() && WellFormed(s) && Disjoint(src, rep)
    requires visited <= DirsUnder(s, src) && d in DirsUnder(s, src) && d !in visited
    requires src in visited || (d == src && visited == {})
    requires d == src || (d != [] && Parent(d) in visited)
    requires r == Rebase(d, src, rep)
    requires SourceSide(s, src, Handled(s, src, visited))
    requires fs.entries == PropagatedOver(s, src, rep, Handled(s, src, visited))
    modifies fs
    ensures fs.Valid() && SourceSide(s, src, Handled(s, src, visited) + {d})
    ensures ok <==> !BlockedAt(s, src, rep, d)
    ensures ok ==> fs.entries == PropagatedOver(s, src, rep, Handled(s, src, visited) + {d})
    ensures !ok ==> fs.entries == old(fs.entries)
  {
    PropagatedAt(s, src, rep, Handled(s, src, visited), r);
    HandledGrows(s, src, visited, d);
    if r !in fs.entries {
      DirStepMissing(s, src, rep, visited, d);
      ok := fs.MakeDirs(r);
    } else {
      assert d !in Handled(s, src, visited);
      assert Rebase(r, rep, src) == d;
      assert r in s;
      DirStepExisting(s, src, rep, visited, d);
      ok := true;
    }
  }

  /**
   * One directory `d` of the source walk: its replica counterpart is created
   * with `os.makedirs` when missing, then its files are dealt with.
   */
  method PropagateDir(fs: FileSystem, ghost s: Tree, src: Path, rep: Path, ghost visited: set<Path>, d: Path)
    returns (outcome: Outcome, ghost handled: set<Path>)
    requires fs.Valid() && WellFormed(s) && Disjoint(src, rep)
    requires visited <= DirsUnder(s, src) && d in DirsUnder(s, src) && d !in visited
    requires src in visited || (d == src && visited == {})
    requires d == src || (d != [] && Parent(d) in visited)
    requires SourceSide(s, src, Handled(s, src, visited))
    requires fs.entries == PropagatedOver(s, src, rep, Handled(s, src, visited))
    requires forall e :: e in Handled(s, src, visited) ==> !BlockedAt(s, src, rep, e)
    modifies fs
    ensures fs.Valid()
    ensures SourceSide(s, src, handled) && fs.entries == PropagatedOver(s, src, rep, handled)
    ensures Handled(s, src, visited) <= handled <= Handled(s, src, visited + {d})
    ensures outcome.Done? ==> handled == Handled(s, src, visited + {d})
    ensures forall e :: e in handled ==> !BlockedAt(s, src, rep, e)
    ensures outcome.Failed? ==> outcome.at !in handled
    ensures outcome.Failed? ==> outcome.at in SourceEntries(s, src) && BlockedAt(s, src, rep, outcome.at)
  {
    handled := Handled(s, src, visited);
    var r := ReplaceFirst(d, src, rep);
    CorrespondingPath(d, src, rep);
    FilesPending(s, src, visited, d);
    var ok := MakeReplicaDir(fs, s, src, rep, visited, d, r);
    if !ok {
      return Failed(d), handled;
    }
    handled := handled + {d};
    SourceListingKept(s, src, rep, handled, d);
    var files := FilesIn(fs.entries, d);
    outcome, handled := CopyFiles(fs, s, src, rep, handled, d, r, files);
  }

  /**
   * The first pass of `synchronize_directories`: walks the source top-down,
   * creates each missing replica directory and copies each file whose replica
   * is missing or differs. It raises exactly when the pass is `Blocked`;
   * `handled` is what it dealt with before returning.
   */
  method Propagate(fs: FileSystem, src: Path, rep: Path) returns (outcome: Outcome, ghost handled: set<Path>)
    requires fs.Valid() && Disjoint(src, rep)
    modifies fs
    ensures fs.Valid()
    ensures SourceSide(old(fs.entries), src, handled)
    ensures fs.entries == PropagatedOver(old(fs.entries), src, rep, handled)
    ensures outcome.Done? <==> !Blocked(old(fs.entries), src, rep)
    ensures outcome.Done? ==> fs.entries == Propagated(old(fs.entries), src, rep)
    ensures forall e :: e in handled ==> !BlockedAt(old(fs.entries), src, rep, e)
    ensures outcome.Failed? ==> outcome.at !in handled
    ensures outcome.Failed? ==>
      outcome.at in SourceEntries(old(fs.entries), src) && BlockedAt(old(fs.entries), src, rep, outcome.at)
  {
    ghost var s := fs.entries;
    assert WellFormed(s);
    var dirs := DirsUnder(fs.entries, src);
    var visited: set<Path> := {};
    handled := {};
    PropagatedNothing(s, src, rep);
    while visited != dirs
      invariant visited <= dirs && dirs == DirsUnder(s, src)
      invariant fs.Valid()
      invariant visited != {} ==> src in visited
      invariant handled == Handled(s, src, visited) && SourceSide(s, src, handled)
      invariant fs.entries == PropagatedOver(s, src, rep, handled)
      invariant forall e :: e in handled ==> !BlockedAt(s, src, rep, e)
      decreases |dirs - visited|
    {
      TopDownNext(s, src, visited);
      var d :| d in dirs - visited && (d == src || (d != [] && Parent(d) in visited));
      outcome, handled := PropagateDir(fs, s, src, rep, visited, d);
      if outcome.Failed? {
        return;
      }
      visited := visited + {d};
    }
    outcome := Done;
  }

  /** One file `f` listed in the replica directory `d`: removed when its source counterpart does not exist. */
  method PruneFile(fs: FileSystem, ghost t: Tree, src: Path, rep: Path, ghost visited: set<Path>, ghost done: set<Path>,
                   d: Path, cs: Path, f: Path)
    requires fs.Valid() && Disjoint(src, rep)
    requires visited <= DirsUnder(t, rep) && d in DirsUnder(t, rep) && d !in visited
    requires done <= FilesIn(t, d) && f in FilesIn(t, d) && f !in done
    requires cs == Rebase(d, rep, src)
    requires fs.entries == PrunedOver(t, src, rep, visited, done)
    modifies fs
    ensures fs.Valid()
    ensures fs.entries == PrunedOver(t, src, rep, visited, done + {f})
  {
    var sf := cs + [f[|f| - 1]];
    RemoveStep(t, src, rep, visited, done, d, f);
    CounterpartOutside(f, src, rep);
    PrunedFrame(t, src, rep, visited, done);
    if sf !in fs.entries {
      fs.Remove(f);
    }
  }

  /**
   * The files `os.walk` lists in the replica directory `d`, whose source
   * counterpart `cs` exists: each without source counterpart is removed.
   */
  method PruneFiles(fs: FileSystem, ghost t: Tree, src: Path, rep: Path, ghost visited: set<Path>, d: Path, cs: Path)
    requires fs.Valid() && Disjoint(src, rep)
    requires visited <= DirsUnder(t, rep) && d in DirsUnder(t, rep) && d !in visited
    requires cs == Rebase(d, rep, src)
    requires fs.entries == PrunedOver(t, src, rep, visited, {})
    modifies fs
    ensures fs.Valid()
    ensures fs.entries == PrunedOver(t, src, rep, visited, FilesIn(t, d))
  {
    VisitDir(t, src, rep, visited, d);
    var files := FilesIn(fs.entries, d);
    ghost var done: set<Path> := {};
    while files != {}
      invariant files <= FilesIn(t, d) && done !! files && done + files == {} + FilesIn(t, d)
      invariant fs.Valid()
      invariant fs.entries == PrunedOver(t, src, rep, visited, done)
      decreases |files|
    {
      var f :| f in files;
      PendingStep({}, FilesIn(t, d), done, files, f);
      PruneFile(fs, t, src, rep, visited, done, d, cs, f);
      done := done + {f};
      files := files - {f};
    }
  }

  /**
   * The second pass of `synchronize_directories`: walks the replica
   * bottom-up, removes each directory without source counterpart with all it
   * holds, and in the others each file without source counterpart.
   */
  method Prune(fs: FileSystem, src: Path, rep: Path)
    requires fs.Valid() && Disjoint(src, rep)
    modifies fs
    ensures fs.Valid()
    ensures fs.entries == Pruned(old(fs.entries), src, rep)
  {
    ghost var t := fs.entries;
    assert WellFormed(t);
    var dirs := DirsUnder(fs.entries, rep);
    var visited: set<Path> := {};
    PrunedNothing(t, src, rep);
    while visited != dirs
      invariant visited <= dirs && dirs == DirsUnder(t, rep)
      invariant fs.Valid()
      invariant fs.entries == PrunedOver(t, src, rep, visited, {})
      decreases |dirs - visited|
    {
      BottomUpNext(t, rep, visited);
      var d :| d in dirs - visited && Deepest(dirs - visited, d);
      var cs := ReplaceFirst(d, rep, src);
      CorrespondingPath(d, rep, src);
      CounterpartOutside(d, src, rep);
      PrunedFrame(t, src, rep, visited, {});
      VisitDir(t, src, rep, visited, d);
      if cs !in fs.entries {
        RemoveTreeStep(t, src, rep, visited, d);
        fs.RemoveTree(d);
      } else {
        PruneFiles(fs, t, src, rep, visited, d, cs);
        FinishDir(t, src, rep, visited, d);
      }
      visited := visited + {d};
    }
  }

  /**
   * `synchronize_directories(src, rep)`: the propagation pass, then the
   * pruning pass. It raises exactly when propagation is blocked, leaving the
   * state reached so far; otherwise the filesystem is `Synchronized`.
   */
  method SynchronizeDirectories(fs: FileSystem, src: Path, rep: Path) returns (outcome: Outcome, ghost handled: set<Path>)
    requires fs.Valid() && Disjoint(src, rep)
    modifies fs
    ensures fs.Valid()
    ensures outcome.Done? <==> !Blocked(old(fs.entries), src, rep)
    ensures outcome.Done? ==> fs.entries == Synchronized(old(fs.entries), src, rep)
    ensures SourceSide(old(fs.entries), src, handled)
    ensures forall e :: e in handled ==> !BlockedAt(old(fs.entries), src, rep, e)
    ensures outcome.Failed? ==>
      && outcome.at in SourceEntries(old(fs.entries), src)
      && BlockedAt(old(fs.entries), src, rep, outcome.at)
      && outcome.at !in handled
      && fs.entries == PropagatedOver(old(fs.entries), src, rep, handled)
  {
    outcome, handled := Propagate(fs, src, rep);
    if outcome.Failed? {
      return;
    }
    Prune(fs, src, rep);
  }
}
