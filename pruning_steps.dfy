/**
 * One step of the pruning pass at a time: how `PrunedOver` changes when the
 * bottom-up walk of the replica reaches one more directory or file.
 */
module PruningSteps {
  import opened Paths
  import opened Os
  import opened Mirror
  import opened PropagationSteps

  /** Nothing visited, nothing removed. */
  lemma PrunedNothing(t: Tree, src: Path, rep: Path)
    ensures PrunedOver(t, src, rep, {}, {}) == t
  {
    var c := PrunedOver(t, src, rep, {}, {});
    forall q ensures Unchanged(c, t, q) {
    }
    TreesEqual(c, t);
  }

  /** The pass removes entries at or below the replica root and nothing else. */
  lemma PrunedFrame(t: Tree, src: Path, rep: Path, visited: set<Path>, done: set<Path>)
    ensures forall q :: q in PrunedOver(t, src, rep, visited, done) ==> q in t && PrunedOver(t, src, rep, visited, done)[q] == t[q]
    ensures forall q :: !Under(q, rep) ==> Unchanged(t, PrunedOver(t, src, rep, visited, done), q)
  {
  }

  /** The source counterpart of a replica path lies outside the replica, where pruning never writes. */
  lemma CounterpartOutside(q: Path, src: Path, rep: Path)
    requires Disjoint(src, rep) && Under(q, rep)
    ensures Under(Rebase(q, rep, src), src) && !Under(Rebase(q, rep, src), rep)
  {
    var cs := Rebase(q, rep, src);
    CorrespondingPath(q, rep, src);
    if Under(cs, rep) {
      UnderBoth(cs, src, rep);
    }
  }

  /** Below a replica path without source counterpart, no path has one either. */
  lemma OrphanBelow(t: Tree, src: Path, rep: Path, d: Path, q: Path)
    requires WellFormed(t) && Under(d, rep) && Under(q, d)
    requires Orphan(t, src, rep, d)
    ensures Under(q, rep) && Orphan(t, src, rep, q)
  {
    UnderTransitive(q, d, rep);
    var cd := Rebase(d, rep, src);
    var cq := Rebase(q, rep, src);
    if |q| > |d| && cq in t {
      assert cq[..|cd|] == cd;
      AncestorIsDir(t, cq, |cd|);
    } else if |q| == |d| {
      UnderSameLength(q, d);
    }
  }

  /**
   * A directory reached by the walk is still there, with every file it had:
   * only visited directories and what is below them have been removed.
   */
  lemma VisitDir(t: Tree, src: Path, rep: Path, visited: set<Path>, d: Path)
    requires Disjoint(src, rep)
    requires visited <= DirsUnder(t, rep) && d in DirsUnder(t, rep) && d !in visited
    ensures d != [] && IsDir(PrunedOver(t, src, rep, visited, {}), d)
    ensures FilesIn(PrunedOver(t, src, rep, visited, {}), d) == FilesIn(t, d)
  {
    assert Under(src, []);
    var c := PrunedOver(t, src, rep, visited, {});
    forall f | f in FilesIn(t, d) ensures f in FilesIn(c, d) {
      assert f !in DirsUnder(t, rep);
    }
  }

  /**
   * A directory without source counterpart, all of whose subdirectories have
   * been visited: `shutil.rmtree` leaves the state of one more directory
   * visited.
   */
  lemma RemoveTreeStep(t: Tree, src: Path, rep: Path, visited: set<Path>, d: Path)
    requires WellFormed(t) && Disjoint(src, rep)
    requires visited <= DirsUnder(t, rep) && d in DirsUnder(t, rep) && d !in visited
    requires forall x :: x in DirsUnder(t, rep) && Under(x, d) && x != d ==> x in visited
    requires Orphan(t, src, rep, d)
    ensures (map q | q in PrunedOver(t, src, rep, visited, {}) && !Under(q, d) :: PrunedOver(t, src, rep, visited, {})[q])
         == PrunedOver(t, src, rep, visited + {d}, {})
  {
    var c := PrunedOver(t, src, rep, visited, {});
    var a := map q | q in c && !Under(q, d) :: c[q];
    var b := PrunedOver(t, src, rep, visited + {d}, {});
    forall q ensures Unchanged(a, b, q) {
      if q in t && Under(q, d) {
        OrphanBelow(t, src, rep, d, q);
        if t[q].Dir? {
          assert q in DirsUnder(t, rep);
        } else {
          UnderStrictly(q, d);
          assert Under(Parent(q), d) by {
            assert Parent(q)[..|d|] == q[..|d|];
          }
          UnderTransitive(Parent(q), d, rep);
          assert Parent(q) in DirsUnder(t, rep);
        }
        assert Gone(t, src, rep, visited + {d}, {}, q);
      }
    }
    TreesEqual(a, b);
  }

  /**
   * The file `f` listed in the visited directory `d`: `os.remove` is called
   * exactly when it has no source counterpart, and either way the state is
   * that with `f` dealt with.
   */
  lemma RemoveStep(t: Tree, src: Path, rep: Path, visited: set<Path>, done: set<Path>, d: Path, f: Path)
    requires Disjoint(src, rep)
    requires visited <= DirsUnder(t, rep) && d in DirsUnder(t, rep) && d !in visited
    requires done <= FilesIn(t, d) && f in FilesIn(t, d) && f !in done
    ensures Under(f, rep) && IsFile(PrunedOver(t, src, rep, visited, done), f)
    ensures Rebase(f, rep, src) == Rebase(d, rep, src) + [f[|f| - 1]]
    ensures Orphan(t, src, rep, f) ==>
      PrunedOver(t, src, rep, visited, done) - {f} == PrunedOver(t, src, rep, visited, done + {f})
    ensures !Orphan(t, src, rep, f) ==>
      PrunedOver(t, src, rep, visited, done) == PrunedOver(t, src, rep, visited, done + {f})
  {
    assert f[..|d|] == d;
    UnderTransitive(f, d, rep);
    UnderStrictly(f, rep);
    ParentCorresponds(f, rep, src);
    var c := PrunedOver(t, src, rep, visited, done);
    var b := PrunedOver(t, src, rep, visited, done + {f});
    assert f !in DirsUnder(t, rep);
    if Orphan(t, src, rep, f) {
      var a := c - {f};
      forall q ensures Unchanged(a, b, q) {
      }
      TreesEqual(a, b);
    } else {
      forall q ensures Unchanged(c, b, q) {
      }
      TreesEqual(c, b);
    }
  }

  /** Once every file of a directory with a source counterpart is dealt with, the directory counts as visited. */
  lemma FinishDir(t: Tree, src: Path, rep: Path, visited: set<Path>, d: Path)
    requires d in DirsUnder(t, rep) && d !in visited && !Orphan(t, src, rep, d)
    ensures PrunedOver(t, src, rep, visited, FilesIn(t, d)) == PrunedOver(t, src, rep, visited + {d}, {})
  {
    var a := PrunedOver(t, src, rep, visited, FilesIn(t, d));
    var b := PrunedOver(t, src, rep, visited + {d}, {});
    forall q ensures Unchanged(a, b, q) {
    }
    TreesEqual(a, b);
  }

  /** No directory of `pending` lies strictly below `d`. */
  predicate Deepest(pending: set<Path>, d: Path) {
    forall x :: x in pending && Under(x, d) ==> x == d
  }

  /** The bottom-up walk can always go on: some unvisited directory has every subdirectory visited. */
  lemma BottomUpNext(t: Tree, rep: Path, visited: set<Path>)
    requires visited < DirsUnder(t, rep)
    ensures exists d :: d in DirsUnder(t, rep) - visited && Deepest(DirsUnder(t, rep) - visited, d)
  {
    var y :| y in DirsUnder(t, rep) && y !in visited;
    assert y in DirsUnder(t, rep) - visited;
    var d := Longest(DirsUnder(t, rep) - visited);
    forall x | x in DirsUnder(t, rep) - visited && Under(x, d) ensures x == d {
      UnderSameLength(x, d);
    }
  }
}
