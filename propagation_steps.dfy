/**
 * One step of the propagation pass at a time: how `PropagatedOver` changes
 * when the top-down walk reaches one more source directory or file, and when
 * that step raises.
 */
module PropagationSteps {
  import opened Paths
  import opened Os
  import opened Mirror

  /** Maps that agree at every path are equal. */
  lemma TreesEqual(a: Tree, b: Tree)
    requires forall q :: Unchanged(a, b, q)
    ensures a == b
  {
    forall q | q in a.Keys ensures q in b.Keys {
      assert Unchanged(a, b, q);
    }
    forall q | q in b.Keys ensures q in a.Keys {
      assert Unchanged(a, b, q);
    }
    assert a.Keys == b.Keys;
    forall q | q in a ensures a[q] == b[q] {
      assert Unchanged(a, b, q);
    }
  }

  lemma ImageMember(es: set<Path>, from: Path, to: Path, q: Path)
    requires forall e :: e in es ==> Under(e, from)
    ensures q in Image(es, from, to) <==> Under(q, to) && Rebase(q, to, from) in es
  {
    if q in Image(es, from, to) {
      var e :| e in es && Rebase(e, from, to) == q;
      CorrespondingPath(e, from, to);
    }
    if Under(q, to) && Rebase(q, to, from) in es {
      CorrespondingPath(q, to, from);
      assert Rebase(Rebase(q, to, from), from, to) == q;
    }
  }

  lemma PrefixMember(p: Path, q: Path)
    ensures q in Prefixes(p, |p|) <==> |q| < |p| && Under(p, q)
  {
    if |q| < |p| && Under(p, q) {
      assert q == p[..|q|];
    }
  }

  /** Which paths exist once the entries `es` are dealt with, and what is there. */
  lemma PropagatedAt(s: Tree, src: Path, rep: Path, es: set<Path>, q: Path)
    requires SourceSide(s, src, es)
    ensures q in PropagatedOver(s, src, rep, es) <==>
      q in s || (Under(q, rep) && Rebase(q, rep, src) in es) || (src in es && |q| < |rep| && Under(rep, q))
    ensures q in PropagatedOver(s, src, rep, es) ==>
      PropagatedOver(s, src, rep, es)[q] == PropagatedNode(s, src, rep, es, q)
  {
    ImageMember(es, src, rep, q);
    PrefixMember(rep, q);
  }

  /** Nothing dealt with, nothing changed. */
  lemma PropagatedNothing(s: Tree, src: Path, rep: Path)
    ensures PropagatedOver(s, src, rep, {}) == s
  {
    forall q ensures Unchanged(s, PropagatedOver(s, src, rep, {}), q) {
      PropagatedAt(s, src, rep, {}, q);
    }
  }

  /** The pass writes only on the replica side; the source tree stays as it was. */
  lemma PropagatedFrame(s: Tree, src: Path, rep: Path, es: set<Path>)
    requires Disjoint(src, rep) && SourceSide(s, src, es)
    ensures ReplicaSideOnly(s, PropagatedOver(s, src, rep, es), rep)
    ensures forall q :: Under(q, src) ==> Unchanged(s, PropagatedOver(s, src, rep, es), q)
  {
    var c := PropagatedOver(s, src, rep, es);
    forall q ensures Unchanged(s, c, q) || Under(q, rep) || (q !in s && IsDir(c, q) && Under(rep, q)) {
      PropagatedAt(s, src, rep, es, q);
    }
    forall q | Under(q, src) ensures Unchanged(s, c, q) {
      PropagatedAt(s, src, rep, es, q);
      if Under(q, rep) {
        UnderBoth(q, src, rep);
      }
      if |q| < |rep| && Under(rep, q) {
        UnderTransitive(rep, q, src);
      }
    }
  }

  /** A path equal in length to a root it lies under is that root. */
  lemma UnderSameLength(p: Path, root: Path)
    requires Under(p, root) && |p| == |root|
    ensures p == root
  {
    assert p == p[..|root|];
  }

  /** A path under a root other than the root itself is longer. */
  lemma UnderStrictly(p: Path, root: Path)
    requires Under(p, root) && p != root
    ensures |p| > |root|
  {
    if |p| == |root| {
      UnderSameLength(p, root);
    }
  }

  /** The listing of a source directory is not affected by the pass. */
  lemma SourceListingKept(s: Tree, src: Path, rep: Path, es: set<Path>, d: Path)
    requires Disjoint(src, rep) && SourceSide(s, src, es) && Under(d, src)
    ensures FilesIn(PropagatedOver(s, src, rep, es), d) == FilesIn(s, d)
  {
    var c := PropagatedOver(s, src, rep, es);
    PropagatedFrame(s, src, rep, es);
    forall p | p != [] && Parent(p) == d ensures Under(p, src) {
      assert p[..|d|] == d;
      UnderTransitive(p, d, src);
    }
  }

  /**
   * The files of one directory still to be dealt with, `files`, and the
   * entries dealt with, `handled`, split `es + listed`; moving one pending
   * file over keeps the split.
   */
  lemma PendingStep(es: set<Path>, listed: set<Path>, handled: set<Path>, files: set<Path>, f: Path)
    requires files <= listed && handled !! files && handled + files == es + listed && es <= handled
    requires f in files
    ensures f !in handled && handled <= es + listed
    ensures files - {f} <= listed && handled + {f} !! files - {f}
    ensures (handled + {f}) + (files - {f}) == es + listed && es <= handled + {f}
  {
  }

  /** Visiting `d` adds it and the files listed in it to what has been dealt with. */
  lemma HandledGrows(s: Tree, src: Path, visited: set<Path>, d: Path)
    requires d in DirsUnder(s, src) && d !in visited
    ensures Handled(s, src, visited + {d}) == Handled(s, src, visited) + {d} + FilesIn(s, d)
    ensures SourceSide(s, src, Handled(s, src, visited))
  {
    forall f | f in FilesIn(s, d) ensures Under(f, src) {
      assert f[..|d|] == d;
      UnderTransitive(f, d, src);
    }
  }

  /**
   * Once the directory `d` itself is dealt with, the files listed in it are
   * exactly what visiting it still adds, none of them dealt with yet.
   */
  lemma FilesPending(s: Tree, src: Path, visited: set<Path>, d: Path)
    requires d in DirsUnder(s, src) && d !in visited
    ensures SourceSide(s, src, Handled(s, src, visited) + {d})
    ensures (Handled(s, src, visited) + {d}) !! FilesIn(s, d)
    ensures Handled(s, src, visited + {d}) == Handled(s, src, visited) + {d} + FilesIn(s, d)
  {
    HandledGrows(s, src, visited, d);
  }

  /**
   * Visiting a source directory whose replica counterpart already exists:
   * nothing changes and nothing raises.
   */
  lemma DirStepExisting(s: Tree, src: Path, rep: Path, visited: set<Path>, d: Path)
    requires WellFormed(s) && Disjoint(src, rep)
    requires visited <= DirsUnder(s, src) && d in DirsUnder(s, src) && d !in visited
    requires src in visited || d == src
    requires Rebase(d, src, rep) in s
    ensures SourceSide(s, src, Handled(s, src, visited) + {d})
    ensures !BlockedAt(s, src, rep, d)
    ensures PropagatedOver(s, src, rep, Handled(s, src, visited))
         == PropagatedOver(s, src, rep, Handled(s, src, visited) + {d})
  {
    HandledGrows(s, src, visited, d);
    var es := Handled(s, src, visited);
    var r := Rebase(d, src, rep);
    CorrespondingPath(d, src, rep);
    if |d| > |src| {
      ParentCorresponds(d, src, rep);
      assert IsDir(s, Parent(r));
    } else {
      UnderSameLength(d, src);
      assert r == rep;
    }
    var a := PropagatedOver(s, src, rep, es);
    var b := PropagatedOver(s, src, rep, es + {d});
    forall q ensures Unchanged(a, b, q) {
      PropagatedAt(s, src, rep, es, q);
      PropagatedAt(s, src, rep, es + {d}, q);
      if |q| < |rep| && Under(rep, q) && d == src {
        assert q == rep[..|q|];
        AncestorIsDir(s, rep, |q|);
      }
    }
    TreesEqual(a, b);
  }

  /** Dealing with a source directory whose replica counterpart is missing adds that one directory. */
  lemma NewDirAt(s: Tree, src: Path, rep: Path, es: set<Path>, d: Path, q: Path)
    requires SourceSide(s, src, es) && src in es
    requires IsDir(s, d) && Under(d, src) && Rebase(d, src, rep) !in s
    ensures SourceSide(s, src, es + {d})
    ensures Unchanged(PropagatedOver(s, src, rep, es)[Rebase(d, src, rep) := Dir], PropagatedOver(s, src, rep, es + {d}), q)
  {
    var r := Rebase(d, src, rep);
    CorrespondingPath(d, src, rep);
    PropagatedAt(s, src, rep, es + {d}, q);
    if q == r {
      assert Rebase(r, rep, src) == d;
    } else {
      PropagatedAt(s, src, rep, es, q);
      if Under(q, rep) {
        CorrespondingPath(q, rep, src);
      }
    }
  }

  /** The source root, first visited, with no replica root yet: `os.makedirs` creates it and its missing ancestors. */
  lemma RootStepMissing(s: Tree, src: Path, rep: Path)
    requires WellFormed(s) && IsDir(s, src) && rep !in s
    ensures SourceSide(s, src, {src})
    ensures HasFileAncestor(s, rep) <==> BlockedAt(s, src, rep, src)
    ensures !BlockedAt(s, src, rep, src) ==>
      AddDirs(s, Prefixes(rep, |rep| + 1)) == PropagatedOver(s, src, rep, {src})
  {
    CorrespondingPath(src, src, rep);
    assert Rebase(src, src, rep) == rep;
    var b := PropagatedOver(s, src, rep, {src});
    var made := AddDirs(s, Prefixes(rep, |rep| + 1));
    forall q ensures Unchanged(made, b, q) {
      PropagatedAt(s, src, rep, {src}, q);
      if q in Prefixes(rep, |rep| + 1) && q != rep {
        PrefixMember(rep, q);
      }
      if |q| < |rep| && Under(rep, q) {
        assert q == rep[..|q|];
      }
    }
    TreesEqual(made, b);
  }

  /** One more source entry keeps the handled entries inside the source tree. */
  lemma SourceSideAdd(s: Tree, src: Path, es: set<Path>, e: Path)
    requires SourceSide(s, src, es) && e in s && Under(e, src)
    ensures SourceSide(s, src, es + {e})
  {
  }

  /**
   * Visiting a source subdirectory `d` whose replica counterpart is missing,
   * its parent already dealt with: the counterpart's ancestors hold a file
   * exactly when the parent's counterpart is a file.
   */
  lemma SubdirBlocked(s: Tree, src: Path, rep: Path, es: set<Path>, d: Path)
    requires WellFormed(s) && SourceSide(s, src, es) && src in es
    requires WellFormed(PropagatedOver(s, src, rep, es))
    requires IsDir(s, d) && Under(d, src) && d != src && d !in es && Parent(d) in es && IsDir(s, Parent(d))
    requires Rebase(d, src, rep) !in s
    ensures HasFileAncestor(PropagatedOver(s, src, rep, es), Rebase(d, src, rep)) <==> BlockedAt(s, src, rep, d)
  {
    var r := Rebase(d, src, rep);
    var c := PropagatedOver(s, src, rep, es);
    UnderStrictly(d, src);
    ParentCorresponds(d, src, rep);
    var pr := Parent(r);
    CorrespondingPath(Parent(d), src, rep);
    PropagatedAt(s, src, rep, es, pr);
    assert pr == r[..|r| - 1];
    if !IsFile(s, pr) {
      forall i | 0 <= i < |r| ensures IsDir(c, r[..i]) {
        if i < |r| - 1 {
          AncestorIsDir(c, pr, i);
          assert pr[..i] == r[..i];
        }
      }
    }
  }

  /**
   * Visiting a source subdirectory `d` whose replica counterpart is missing
   * and whose step is not blocked: `os.makedirs` creates that one directory,
   * which leaves the state with `d` dealt with.
   */
  lemma SubdirMade(s: Tree, src: Path, rep: Path, es: set<Path>, d: Path)
    requires WellFormed(s) && SourceSide(s, src, es + {d}) && src in es
    requires WellFormed(PropagatedOver(s, src, rep, es))
    requires IsDir(s, d) && Under(d, src) && d != src && d !in es && Parent(d) in es && IsDir(s, Parent(d))
    requires Rebase(d, src, rep) !in s && !IsFile(s, Rebase(Parent(d), src, rep))
    ensures AddDirs(PropagatedOver(s, src, rep, es), Prefixes(Rebase(d, src, rep), |Rebase(d, src, rep)| + 1))
      == PropagatedOver(s, src, rep, es + {d})
  {
    var r := Rebase(d, src, rep);
    var c := PropagatedOver(s, src, rep, es);
    UnderStrictly(d, src);
    ParentCorresponds(d, src, rep);
    var pr := Parent(r);
    CorrespondingPath(Parent(d), src, rep);
    PropagatedAt(s, src, rep, es, pr);
    PropagatedAt(s, src, rep, es, r);
    assert pr == r[..|r| - 1];
    forall i | 0 <= i < |r| ensures r[..i] in c {
      if i < |r| - 1 {
        AncestorIsDir(c, pr, i);
        assert pr[..i] == r[..i];
      }
    }
    CorrespondingPath(d, src, rep);
    assert Rebase(r, rep, src) == d;
    assert r !in c;
    AddDirsLast(c, r);
    var made := c[r := Dir];
    var b := PropagatedOver(s, src, rep, es + {d});
    forall q ensures Unchanged(made, b, q) {
      NewDirAt(s, src, rep, es, d, q);
    }
    TreesEqual(made, b);
  }

  /**
   * Visiting a source directory whose replica counterpart is missing:
   * `os.makedirs` raises exactly when the step is blocked, and otherwise
   * leaves the state of one more directory dealt with.
   */
  lemma DirStepMissing(s: Tree, src: Path, rep: Path, visited: set<Path>, d: Path)
    requires WellFormed(s) && Disjoint(src, rep)
    requires visited <= DirsUnder(s, src) && d in DirsUnder(s, src) && d !in visited
    requires src in visited || (d == src && visited == {})
    requires d == src || Parent(d) in visited
    requires WellFormed(PropagatedOver(s, src, rep, Handled(s, src, visited)))
    requires Rebase(d, src, rep) !in s
    ensures SourceSide(s, src, Handled(s, src, visited) + {d})
    ensures Rebase(d, src, rep) !in PropagatedOver(s, src, rep, Handled(s, src, visited))
    ensures HasFileAncestor(PropagatedOver(s, src, rep, Handled(s, src, visited)), Rebase(d, src, rep))
      <==> BlockedAt(s, src, rep, d)
    ensures !BlockedAt(s, src, rep, d) ==>
      AddDirs(PropagatedOver(s, src, rep, Handled(s, src, visited)), Prefixes(Rebase(d, src, rep), |Rebase(d, src, rep)| + 1))
      == PropagatedOver(s, src, rep, Handled(s, src, visited) + {d})
  {
    HandledGrows(s, src, visited, d);
    var es := Handled(s, src, visited);
    CorrespondingPath(d, src, rep);
    PropagatedAt(s, src, rep, es, Rebase(d, src, rep));
    if d == src {
      assert es == {};
      PropagatedNothing(s, src, rep);
      assert es + {d} == {src};
      assert Rebase(d, src, rep) == rep;
      RootStepMissing(s, src, rep);
    } else {
      assert src in es && Parent(d) in es && d !in es;
      SourceSideAdd(s, src, es, d);
      SubdirBlocked(s, src, rep, es, d);
      if !BlockedAt(s, src, rep, d) {
        SubdirMade(s, src, rep, es, d);
      }
    }
  }

  /**
   * Dealing with the source file `f`, listed in the visited directory `d`:
   * what the checksums and `shutil.copy2` see, when the step raises, and the
   * state once it is done.
   */
  lemma CopyStep(s: Tree, src: Path, rep: Path, es: set<Path>, d: Path, f: Path)
    requires WellFormed(s) && Disjoint(src, rep) && SourceSide(s, src, es)
    requires src in es && d in es && IsDir(s, d) && f in FilesIn(s, d) && f !in es
    ensures Under(f, src) && SourceSide(s, src, es + {f})
    ensures Rebase(f, src, rep) == Rebase(d, src, rep) + [f[|f| - 1]]
    ensures Parent(Rebase(f, src, rep)) == Rebase(d, src, rep)
    ensures IsFile(PropagatedOver(s, src, rep, es), f) && PropagatedOver(s, src, rep, es)[f] == s[f]
    ensures Rebase(f, src, rep) in PropagatedOver(s, src, rep, es) <==> Rebase(f, src, rep) in s
    ensures Rebase(f, src, rep) in s ==>
      PropagatedOver(s, src, rep, es)[Rebase(f, src, rep)] == s[Rebase(f, src, rep)] && !IsFile(s, Rebase(d, src, rep))
    ensures IsDir(PropagatedOver(s, src, rep, es), Rebase(d, src, rep)) <==> !IsFile(s, Rebase(d, src, rep))
    ensures BlockedAt(s, src, rep, f) <==> IsDir(s, Rebase(f, src, rep)) || IsFile(s, Rebase(d, src, rep))
    ensures !IsDir(s, Rebase(f, src, rep)) && !NeedsCopy(s, f, Rebase(f, src, rep)) ==>
      PropagatedOver(s, src, rep, es) == PropagatedOver(s, src, rep, es + {f})
    ensures !IsDir(s, Rebase(f, src, rep)) && NeedsCopy(s, f, Rebase(f, src, rep)) ==>
      PropagatedOver(s, src, rep, es)[Rebase(f, src, rep) := s[f]] == PropagatedOver(s, src, rep, es + {f})
  {
    assert f[..|d|] == d;
    UnderTransitive(f, d, src);
    assert |f| > |src|;
    ParentCorresponds(f, src, rep);
    CorrespondingPath(f, src, rep);
    CorrespondingPath(d, src, rep);
    var r := Rebase(d, src, rep);
    var rf := Rebase(f, src, rep);
    var c := PropagatedOver(s, src, rep, es);
    var b := PropagatedOver(s, src, rep, es + {f});
    PropagatedFrame(s, src, rep, es);
    PropagatedAt(s, src, rep, es, rf);
    PropagatedAt(s, src, rep, es, r);
    if rf in s {
      assert IsDir(s, Parent(rf));
    }
    forall q | q != rf ensures Unchanged(c, b, q) {
      PropagatedAt(s, src, rep, es, q);
      PropagatedAt(s, src, rep, es + {f}, q);
      if Under(q, rep) && Rebase(q, rep, src) == f {
        CorrespondingPath(q, rep, src);
      }
    }
    PropagatedAt(s, src, rep, es + {f}, rf);
    if !IsDir(s, rf) {
      if NeedsCopy(s, f, rf) {
        assert b[rf] == s[f];
        var copied := c[rf := s[f]];
        forall q ensures Unchanged(copied, b, q) {
          if q != rf {
            assert Unchanged(c, b, q);
          }
        }
        TreesEqual(copied, b);
      } else {
        TreesEqual(c, b);
      }
    }
  }

  /** The top-down walk can always go on: some unvisited directory is the root or has its parent visited. */
  lemma TopDownNext(s: Tree, src: Path, visited: set<Path>)
    requires WellFormed(s) && visited < DirsUnder(s, src)
    ensures exists d :: d in DirsUnder(s, src) - visited && (d == src || (d != [] && Parent(d) in visited))
  {
    var y :| y in DirsUnder(s, src) && y !in visited;
    assert y in DirsUnder(s, src) - visited;
    var d := Shortest(DirsUnder(s, src) - visited);
    if d != src {
      UnderStrictly(d, src);
      ParentCorresponds(d, src, src);
      assert IsDir(s, Parent(d));
      assert Parent(d) in DirsUnder(s, src);
    }
  }
}
