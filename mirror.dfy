/**
 * What one run of the synchronizer does to the filesystem, as functions of
 * the state before it. `PropagatedOver` and `PrunedOver` give the state once
 * the walk has dealt with part of the tree; with all of it they are the
 * effect of the propagation pass (`Propagated`) and of the pruning pass
 * (`Pruned`). `Blocked` says when the propagation pass raises.
 */
module Mirror {
  import opened Paths
  import opened Os

  // ---------------------------------------------------------------------------
  // The walks
  // ---------------------------------------------------------------------------

  /** The directories `os.walk(root)` visits: all directories at or below `root` (none when `root` is missing or a file). */
  function DirsUnder(m: Tree, root: Path): set<Path> {
    set p | p in m && Under(p, root) && m[p].Dir?
  }

  /** The files `os.walk` lists directly in the directory `d`. */
  function FilesIn(m: Tree, d: Path): set<Path> {
    set p | p in m && p != [] && Parent(p) == d && m[p].File?
  }

  /**
   * What `os.walk(root)` yields in a well-formed tree: `root` itself exactly
   * when it is a directory, nothing at all when it is missing or a file, and
   * in each visited directory only files lying directly inside it.
   */
  lemma WalkedTree(m: Tree, root: Path)
    requires WellFormed(m)
    ensures root in DirsUnder(m, root) <==> IsDir(m, root)
    ensures !IsDir(m, root) ==> DirsUnder(m, root) == {}
    ensures forall d, f :: d in DirsUnder(m, root) && f in FilesIn(m, d) ==>
      IsFile(m, f) && Under(f, root) && |f| == |d| + 1
  {
    if !IsDir(m, root) {
      forall p | p in DirsUnder(m, root) ensures false {
        assert p != root;
        AncestorIsDir(m, p, |root|);
      }
    }
    forall d, f | d in DirsUnder(m, root) && f in FilesIn(m, d) ensures Under(f, root) {
      assert f[..|d|] == d;
      assert f[..|root|] == d[..|root|];
    }
  }

  /** The source entries dealt with once the walk has visited `visited`: those directories and the files listed in them. */
  function Handled(s: Tree, src: Path, visited: set<Path>): set<Path> {
    set e | e in s && Under(e, src) && (if s[e].Dir? then e in visited else e != [] && Parent(e) in visited)
  }

  /** Everything the propagation pass deals with. */
  function SourceEntries(s: Tree, src: Path): set<Path> {
    Handled(s, src, DirsUnder(s, src))
  }

  ghost predicate SourceSide(s: Tree, src: Path, es: set<Path>) {
    forall e :: e in es ==> e in s && Under(e, src)
  }

  // ---------------------------------------------------------------------------
  // Propagation pass
  // ---------------------------------------------------------------------------

  /** The source file `f` must be copied to `r`: nothing is there, or a file whose checksum differs. */
  predicate NeedsCopy(s: Tree, f: Path, r: Path)
    requires IsFile(s, f)
  {
    r !in s || (s[r].File? && s[r].content != s[f].content)
  }

  function Image(es: set<Path>, from: Path, to: Path): set<Path>
    requires forall e :: e in es ==> Under(e, from)
  {
    set e | e in es :: Rebase(e, from, to)
  }

  /** The entry at `q` once the source entries `es` have been dealt with (when `q` exists then). */
  function PropagatedNode(s: Tree, src: Path, rep: Path, es: set<Path>, q: Path): Node
    requires SourceSide(s, src, es)
  {
    if Under(q, rep) && Rebase(q, rep, src) in es && s[Rebase(q, rep, src)].File?
       && NeedsCopy(s, Rebase(q, rep, src), q)
    then s[Rebase(q, rep, src)]
    else if q in s then s[q]
    else Dir
  }

  /**
   * The filesystem once the propagation pass has dealt with the source
   * entries `es`: the replica counterpart of each such directory exists (with
   * the missing ancestors of the replica root once the source root is dealt
   * with), and each such file whose copy is called for has been copied.
   */
  function PropagatedOver(s: Tree, src: Path, rep: Path, es: set<Path>): Tree
    requires SourceSide(s, src, es)
  {
    map q | q in s.Keys + Image(es, src, rep) + (if src in es then Prefixes(rep, |rep|) else {})
      :: PropagatedNode(s, src, rep, es, q)
  }

  /** The effect of the whole propagation pass, when it does not raise. */
  function Propagated(s: Tree, src: Path, rep: Path): Tree {
    PropagatedOver(s, src, rep, SourceEntries(s, src))
  }

  /**
   * Dealing with the source entry `e` raises: the replica root cannot be
   * created below a file; `e`'s replica directory is a file, so nothing can be
   * created in it; or `e` is a file whose replica counterpart is a directory,
   * which the checksum cannot open.
   */
  predicate BlockedAt(s: Tree, src: Path, rep: Path, e: Path)
    requires e in s && Under(e, src)
  {
    || (e == src && rep !in s && HasFileAncestor(s, rep))
    || (|e| > |src| && IsFile(s, Rebase(Parent(e), src, rep)))
    || (s[e].File? && IsDir(s, Rebase(e, src, rep)))
  }

  /** The propagation pass raises at some entry. */
  predicate Blocked(s: Tree, src: Path, rep: Path) {
    exists e :: e in SourceEntries(s, src) && BlockedAt(s, src, rep, e)
  }

  // ---------------------------------------------------------------------------
  // Pruning pass
  // ---------------------------------------------------------------------------

  /** The replica entry `q` has no source counterpart. */
  predicate Orphan(t: Tree, src: Path, rep: Path, q: Path)
    requires Under(q, rep)
  {
    Rebase(q, rep, src) !in t
  }

  /**
   * The orphan `q` is removed once the bottom-up walk has visited the
   * directories `visited` and has dealt with the files `done` of the directory
   * at hand: it is one of those directories or below one (removed with it),
   * or one of those files.
   */
  predicate Gone(t: Tree, src: Path, rep: Path, visited: set<Path>, done: set<Path>, q: Path)
    requires q in t
  {
    && Under(q, rep)
    && Orphan(t, src, rep, q)
    && (q in visited || q in done || (t[q].File? && q != [] && Parent(q) in visited))
  }

  function PrunedOver(t: Tree, src: Path, rep: Path, visited: set<Path>, done: set<Path>): Tree {
    map q | q in t && !Gone(t, src, rep, visited, done, q) :: t[q]
  }

  /** The effect of the whole pruning pass. */
  function Pruned(t: Tree, src: Path, rep: Path): Tree {
    PrunedOver(t, src, rep, DirsUnder(t, rep), {})
  }

  /** The effect of a run that does not raise: propagation, then pruning. */
  function Synchronized(s: Tree, src: Path, rep: Path): Tree {
    Pruned(Propagated(s, src, rep), src, rep)
  }

  // ---------------------------------------------------------------------------
  // Frames
  // ---------------------------------------------------------------------------

  predicate Unchanged(a: Tree, b: Tree, q: Path) {
    (q in a <==> q in b) && (q in a ==> a[q] == b[q])
  }

  /** Every difference between `a` and `b` is at or below `rep`, or a directory created above it. */
  ghost predicate ReplicaSideOnly(a: Tree, b: Tree, rep: Path) {
    forall q :: Unchanged(a, b, q) || Under(q, rep) || (q !in a && IsDir(b, q) && Under(rep, q))
  }
}
