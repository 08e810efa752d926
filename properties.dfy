/**
 * What one run of the synchronizer guarantees, stated on the specification
 * functions of `Mirror`: the replica mirrors the source after the
 * propagation pass, the pruning pass removes exactly the replica entries
 * without source counterpart, the source is never written, and a second run
 * over an unchanged source changes nothing.
 */
module Properties {
  import opened Paths
  import opened Os
  import opened Mirror
  import opened PropagationSteps
  import opened PruningSteps

  // ---------------------------------------------------------------------------
  // Propagation pass
  // ---------------------------------------------------------------------------

  /** Every directory the walk lists, the source root included. */
  lemma WalkedDirectory(s: Tree, src: Path, d: Path)
    requires IsDir(s, d) && Under(d, src)
    ensures d in SourceEntries(s, src)
  {
    assert d in DirsUnder(s, src);
  }

  /**
   * After the propagation pass every source directory has a replica
   * counterpart: the one that was there, or a new directory.
   */
  lemma DirectoriesMirrored(s: Tree, src: Path, rep: Path, d: Path)
    requires IsDir(s, d) && Under(d, src)
    ensures Rebase(d, src, rep) in Propagated(s, src, rep)
    ensures Propagated(s, src, rep)[Rebase(d, src, rep)]
         == if Rebase(d, src, rep) in s then s[Rebase(d, src, rep)] else Dir
  {
    WalkedDirectory(s, src, d);
    var es := SourceEntries(s, src);
    var r := Rebase(d, src, rep);
    CorrespondingPath(d, src, rep);
    PropagatedAt(s, src, rep, es, r);
  }

  /**
   * When the pass does not raise, the replica counterpart of a source
   * directory with any entry in it is a directory: only existence is checked
   * before `os.makedirs`, so a replica file facing a source directory is kept,
   * but then dealing with any entry of that directory raises.
   */
  lemma NonEmptyDirectoriesMirroredAsDirectories(s: Tree, src: Path, rep: Path, d: Path, c: Path)
    requires WellFormed(s) && !Blocked(s, src, rep)
    requires IsDir(s, d) && Under(d, src)
    requires c in s && c != [] && Parent(c) == d
    ensures IsDir(Propagated(s, src, rep), Rebase(d, src, rep))
  {
    DirectoriesMirrored(s, src, rep, d);
    assert c[..|d|] == d;
    UnderTransitive(c, d, src);
    UnderStrictly(c, d);
    assert c in SourceEntries(s, src) by {
      WalkedDirectory(s, src, d);
      if s[c].Dir? {
        WalkedDirectory(s, src, c);
      }
    }
    assert !BlockedAt(s, src, rep, c);
  }

  /**
   * A source file listed by the walk: its replica counterpart is written by
   * `shutil.copy2` (content and modification time) exactly when it is missing
   * or its checksum differs, and is left as it was otherwise; either way it
   * then holds the source file's content.
   */
  lemma FilesMirrored(s: Tree, src: Path, rep: Path, f: Path)
    requires !Blocked(s, src, rep)
    requires f in SourceEntries(s, src) && IsFile(s, f)
    ensures Rebase(f, src, rep) in Propagated(s, src, rep)
    ensures Propagated(s, src, rep)[Rebase(f, src, rep)]
         == if NeedsCopy(s, f, Rebase(f, src, rep)) then s[f] else s[Rebase(f, src, rep)]
    ensures IsFile(Propagated(s, src, rep), Rebase(f, src, rep))
    ensures Propagated(s, src, rep)[Rebase(f, src, rep)].content == s[f].content
  {
    var es := SourceEntries(s, src);
    var r := Rebase(f, src, rep);
    CorrespondingPath(f, src, rep);
    PropagatedAt(s, src, rep, es, r);
    assert !BlockedAt(s, src, rep, f);
  }

  // ---------------------------------------------------------------------------
  // Pruning pass
  // ---------------------------------------------------------------------------

  /**
   * The pruning pass removes a replica entry exactly when its source
   * counterpart is missing, except a replica root that is a file, which the
   * walk of the replica never lists; it leaves every other entry as it was.
   */
  lemma PrunedExactly(t: Tree, src: Path, rep: Path, q: Path)
    requires WellFormed(t) && q in t
    ensures q in Pruned(t, src, rep) ==> Pruned(t, src, rep)[q] == t[q]
    ensures !Under(q, rep) ==> q in Pruned(t, src, rep)
    ensures Under(q, rep) && q != rep ==> (q in Pruned(t, src, rep) <==> !Orphan(t, src, rep, q))
    ensures q == rep ==> (q in Pruned(t, src, rep) <==> !Orphan(t, src, rep, q) || t[q].File?)
  {
    if Under(q, rep) && q != rep && t[q].File? {
      UnderStrictly(q, rep);
      assert Under(Parent(q), rep) by {
        assert Parent(q)[..|rep|] == q[..|rep|];
      }
      assert Parent(q) in DirsUnder(t, rep);
    }
    if q == rep && t[q].File? && q != [] {
      assert !Under(Parent(q), rep);
    }
  }

  /** A replica directory without source counterpart goes with everything below it. */
  lemma OrphanSubtreeRemoved(t: Tree, src: Path, rep: Path, d: Path)
    requires WellFormed(t) && IsDir(t, d) && Under(d, rep) && Orphan(t, src, rep, d)
    ensures forall q :: Under(q, d) ==> q !in Pruned(t, src, rep)
  {
    forall q | Under(q, d) && q in t ensures q !in Pruned(t, src, rep) {
      OrphanBelow(t, src, rep, d, q);
      PrunedExactly(t, src, rep, q);
      if q == rep {
        UnderSameLength(d, q);
      }
    }
  }

  /**
   * Without a source root the walk of the source yields nothing, so nothing
   * is propagated, and the pruning pass removes the whole replica below its
   * root, and the root too when it is a directory.
   */
  lemma MissingSourceRoot(s: Tree, src: Path, rep: Path)
    requires WellFormed(s) && src !in s
    ensures !Blocked(s, src, rep) && Propagated(s, src, rep) == s
    ensures forall q :: Under(q, rep) && q != rep ==> q !in Synchronized(s, src, rep)
    ensures IsDir(s, rep) ==> rep !in Synchronized(s, src, rep)
  {
    assert DirsUnder(s, src) == {} by {
      forall d | d in s && Under(d, src) ensures false {
        if d == src {
        } else {
          UnderStrictly(d, src);
          AncestorIsDir(s, d, |src|);
        }
      }
    }
    assert SourceEntries(s, src) == {};
    PropagatedNothing(s, src, rep);
    forall q | q in s && Under(q, rep) ensures Orphan(s, src, rep, q) {
      var c := Rebase(q, rep, src);
      CorrespondingPath(q, rep, src);
      if c in s {
        if c == src {
        } else {
          UnderStrictly(c, src);
          AncestorIsDir(s, c, |src|);
        }
      }
    }
    forall q | q in s && Under(q, rep) && (q != rep || IsDir(s, rep))
      ensures q !in Synchronized(s, src, rep)
    {
      PrunedExactly(s, src, rep, q);
    }
  }

  // ---------------------------------------------------------------------------
  // The source is never written
  // ---------------------------------------------------------------------------

  /**
   * A whole run writes at or below the replica root (and the missing
   * ancestors of the replica root it creates) and nothing else: every path
   * at or below the source root is as it was.
   */
  lemma SourceUntouched(s: Tree, src: Path, rep: Path)
    requires Disjoint(src, rep)
    ensures ReplicaSideOnly(s, Synchronized(s, src, rep), rep)
    ensures forall q :: Under(q, src) ==> Unchanged(s, Synchronized(s, src, rep), q)
  {
    var p := Propagated(s, src, rep);
    PropagatedFrame(s, src, rep, SourceEntries(s, src));
    PrunedFrame(p, src, rep, DirsUnder(p, rep), {});
    forall q | Under(q, src) ensures !Under(q, rep) {
      if Under(q, rep) {
        UnderBoth(q, src, rep);
      }
    }
  }

  // ---------------------------------------------------------------------------
  // A whole run: the replica mirrors the source
  // ---------------------------------------------------------------------------

  /** A directory that exists before the propagation pass is still a directory after it. */
  lemma DirectoryKept(s: Tree, src: Path, rep: Path, es: set<Path>, x: Path)
    requires SourceSide(s, src, es) && IsDir(s, x)
    ensures IsDir(PropagatedOver(s, src, rep, es), x)
  {
    PropagatedAt(s, src, rep, es, x);
  }

  /**
   * Once the source root is dealt with, every proper ancestor of the replica
   * root is a directory: it was one already, or `os.makedirs` created it,
   * since the step did not raise.
   */
  lemma ReplicaAncestorIsDir(s: Tree, src: Path, rep: Path, es: set<Path>, r: Path)
    requires WellFormed(s) && SourceSide(s, src, es) && src in es && !BlockedAt(s, src, rep, src)
    requires |r| < |rep| && Under(rep, r)
    ensures IsDir(PropagatedOver(s, src, rep, es), r)
  {
    PropagatedAt(s, src, rep, es, r);
    assert r == rep[..|r|];
    if rep in s {
      AncestorIsDir(s, rep, |r|);
    } else {
      assert !IsFile(s, rep[..|r|]);
    }
  }

  /**
   * The parent of a replica path created for a source entry below the source
   * root is the counterpart of that entry's directory, which is a directory
   * after the pass, since the step did not raise.
   */
  lemma CounterpartParentIsDir(s: Tree, src: Path, rep: Path, q: Path)
    requires WellFormed(s) && Disjoint(src, rep) && !Blocked(s, src, rep)
    requires Under(q, rep) && q != rep && Rebase(q, rep, src) in SourceEntries(s, src)
    ensures q != [] && IsDir(Propagated(s, src, rep), Parent(q))
  {
    var es := SourceEntries(s, src);
    var e := Rebase(q, rep, src);
    CorrespondingPath(q, rep, src);
    assert !BlockedAt(s, src, rep, e);
    UnderStrictly(q, rep);
    ParentCorresponds(e, src, rep);
    var d := Parent(e);
    assert d in DirsUnder(s, src);
    assert d in es;
    CorrespondingPath(d, src, rep);
    PropagatedAt(s, src, rep, es, Rebase(d, src, rep));
  }

  /**
   * A run that does not raise hands the pruning pass a well-formed tree:
   * every entry the propagation pass creates sits in a directory.
   */
  lemma PropagatedWellFormed(s: Tree, src: Path, rep: Path)
    requires WellFormed(s) && Disjoint(src, rep) && !Blocked(s, src, rep)
    ensures WellFormed(Propagated(s, src, rep))
  {
    var es := SourceEntries(s, src);
    var p := Propagated(s, src, rep);
    DirectoryKept(s, src, rep, es, []);
    forall q | q in p && q != [] ensures IsDir(p, Parent(q)) {
      PropagatedAt(s, src, rep, es, q);
      if q in s {
        DirectoryKept(s, src, rep, es, Parent(q));
      } else if Under(q, rep) && q != rep && Rebase(q, rep, src) in es {
        CounterpartParentIsDir(s, src, rep, q);
      } else if Under(q, rep) && Rebase(q, rep, src) in es {
        assert q == rep && Rebase(q, rep, src) == src;
        assert Under(q, Parent(q));
        assert !BlockedAt(s, src, rep, src);
        ReplicaAncestorIsDir(s, src, rep, es, Parent(q));
      } else {
        assert Under(q, Parent(q));
        UnderTransitive(rep, q, Parent(q));
        assert !BlockedAt(s, src, rep, src);
        ReplicaAncestorIsDir(s, src, rep, es, Parent(q));
      }
    }
  }

  /**
   * After a run that does not raise, the replica mirrors the source below its
   * root: a replica path exists exactly when its source counterpart is an
   * entry the walk of the source lists. No source entry is missing from the
   * replica and the replica holds nothing more.
   */
  lemma MirrorExact(s: Tree, src: Path, rep: Path, q: Path)
    requires WellFormed(s) && Disjoint(src, rep) && !Blocked(s, src, rep)
    requires Under(q, rep) && q != rep
    ensures q in Synchronized(s, src, rep) <==> Rebase(q, rep, src) in SourceEntries(s, src)
  {
    var e := Rebase(q, rep, src);
    var p := Propagated(s, src, rep);
    CorrespondingPath(q, rep, src);
    if e in SourceEntries(s, src) {
      CounterpartSurvives(s, src, rep, e);
    }
    if q in Synchronized(s, src, rep) {
      PropagatedWellFormed(s, src, rep);
      PrunedFrame(p, src, rep, DirsUnder(p, rep), {});
      PrunedExactly(p, src, rep, q);
      PropagatedFrame(s, src, rep, SourceEntries(s, src));
      assert Unchanged(s, p, e);
      if s[e].File? {
        assert e != src;
        UnderStrictly(e, src);
        ParentCorresponds(e, src, rep);
        assert Parent(e) in DirsUnder(s, src);
      }
    }
  }

  // ---------------------------------------------------------------------------
  // A second run
  // ---------------------------------------------------------------------------

  /** Trees that agree at and below the source root have the same walk of the source. */
  lemma SameSource(a: Tree, b: Tree, src: Path)
    requires forall q :: Under(q, src) ==> Unchanged(a, b, q)
    ensures DirsUnder(a, src) == DirsUnder(b, src)
    ensures SourceEntries(a, src) == SourceEntries(b, src)
  {
    assert DirsUnder(a, src) == DirsUnder(b, src) by {
      forall p | p in DirsUnder(a, src) ensures p in DirsUnder(b, src) {
        assert Unchanged(a, b, p);
      }
      forall p | p in DirsUnder(b, src) ensures p in DirsUnder(a, src) {
        assert Unchanged(a, b, p);
      }
    }
    var visited := DirsUnder(a, src);
    forall e | e in SourceEntries(a, src) ensures e in SourceEntries(b, src) {
      assert Unchanged(a, b, e);
    }
    forall e | e in SourceEntries(b, src) ensures e in SourceEntries(a, src) {
      assert Unchanged(a, b, e);
    }
  }

  /**
   * The replica counterpart of every source entry exists after the
   * propagation pass and survives the pruning pass unchanged, since its
   * source counterpart is still there.
   */
  lemma CounterpartSurvives(s: Tree, src: Path, rep: Path, e: Path)
    requires Disjoint(src, rep) && e in SourceEntries(s, src)
    ensures Rebase(e, src, rep) in Propagated(s, src, rep)
    ensures Rebase(e, src, rep) in Synchronized(s, src, rep)
    ensures Synchronized(s, src, rep)[Rebase(e, src, rep)] == Propagated(s, src, rep)[Rebase(e, src, rep)]
  {
    var p := Propagated(s, src, rep);
    var r := Rebase(e, src, rep);
    CorrespondingPath(e, src, rep);
    PropagatedAt(s, src, rep, SourceEntries(s, src), r);
    PropagatedFrame(s, src, rep, SourceEntries(s, src));
    assert Unchanged(s, p, e);
    assert !Gone(p, src, rep, DirsUnder(p, rep), {}, r);
  }

  /** The missing ancestors of the replica root that the first run creates are still there after it. */
  lemma ReplicaAncestorsSurvive(s: Tree, src: Path, rep: Path, q: Path)
    requires Disjoint(src, rep) && IsDir(s, src)
    requires |q| < |rep| && Under(rep, q)
    ensures q in Synchronized(s, src, rep)
  {
    var p := Propagated(s, src, rep);
    WalkedDirectory(s, src, src);
    PropagatedAt(s, src, rep, SourceEntries(s, src), q);
    if Under(q, rep) {
      UnderSameLength(rep, q);
    }
    PrunedFrame(p, src, rep, DirsUnder(p, rep), {});
    assert Unchanged(p, Synchronized(s, src, rep), q);
  }

  /** A second run over the result of a first one does not raise at the source entry `e`. */
  lemma SecondRunUnblockedAt(s: Tree, src: Path, rep: Path, e: Path)
    requires WellFormed(s) && Disjoint(src, rep) && !Blocked(s, src, rep)
    requires e in SourceEntries(s, src)
    ensures e in Synchronized(s, src, rep) && !BlockedAt(Synchronized(s, src, rep), src, rep, e)
  {
    var s1 := Synchronized(s, src, rep);
    SourceUntouched(s, src, rep);
    assert Unchanged(s, s1, e);
    if e == src {
      CounterpartSurvives(s, src, rep, e);
      assert Rebase(e, src, rep) == rep;
      assert rep in s1;
    }
    if |e| > |src| {
      var d := Parent(e);
      assert Under(d, src) by {
        assert d[..|src|] == e[..|src|];
      }
      NonEmptyDirectoriesMirroredAsDirectories(s, src, rep, d, e);
      WalkedDirectory(s, src, d);
      CounterpartSurvives(s, src, rep, d);
      assert !IsFile(s1, Rebase(d, src, rep));
    }
    if s[e].File? {
      FilesMirrored(s, src, rep, e);
      CounterpartSurvives(s, src, rep, e);
      assert !IsDir(s1, Rebase(e, src, rep));
    }
  }

  /** A second run over the result of a first one raises at no entry. */
  lemma SecondRunUnblocked(s: Tree, src: Path, rep: Path)
    requires WellFormed(s) && Disjoint(src, rep) && !Blocked(s, src, rep)
    ensures SourceEntries(Synchronized(s, src, rep), src) == SourceEntries(s, src)
    ensures !Blocked(Synchronized(s, src, rep), src, rep)
  {
    var s1 := Synchronized(s, src, rep);
    SourceUntouched(s, src, rep);
    SameSource(s, s1, src);
    forall e | e in SourceEntries(s, src) ensures !BlockedAt(s1, src, rep, e) {
      SecondRunUnblockedAt(s, src, rep, e);
    }
  }

  /**
   * The propagation pass of a second run creates and copies nothing: every
   * source directory's counterpart exists, no source file needs a copy, and
   * the pass leaves the filesystem as it is.
   */
  lemma SecondPropagationIdle(s: Tree, src: Path, rep: Path)
    requires WellFormed(s) && Disjoint(src, rep) && !Blocked(s, src, rep)
    ensures forall d :: d in SourceEntries(s, src) && IsDir(s, d) ==> Rebase(d, src, rep) in Synchronized(s, src, rep)
    ensures forall f :: f in SourceEntries(s, src) && IsFile(s, f) ==>
      IsFile(Synchronized(s, src, rep), f) && !NeedsCopy(Synchronized(s, src, rep), f, Rebase(f, src, rep))
    ensures Propagated(Synchronized(s, src, rep), src, rep) == Synchronized(s, src, rep)
  {
    var s1 := Synchronized(s, src, rep);
    var es := SourceEntries(s, src);
    SourceUntouched(s, src, rep);
    SameSource(s, s1, src);
    forall d | d in es && IsDir(s, d) ensures Rebase(d, src, rep) in s1 {
      CounterpartSurvives(s, src, rep, d);
    }
    forall f | f in es && IsFile(s, f) ensures IsFile(s1, f) && !NeedsCopy(s1, f, Rebase(f, src, rep)) {
      assert Unchanged(s, s1, f);
      CounterpartSurvives(s, src, rep, f);
      FilesMirrored(s, src, rep, f);
    }
    var p1 := Propagated(s1, src, rep);
    forall q ensures Unchanged(s1, p1, q) {
      PropagatedAt(s1, src, rep, es, q);
      if Under(q, rep) && Rebase(q, rep, src) in es {
        var e := Rebase(q, rep, src);
        CorrespondingPath(q, rep, src);
        CounterpartSurvives(s, src, rep, e);
        assert Unchanged(s, s1, e);
        if s[e].File? {
          FilesMirrored(s, src, rep, e);
        }
      }
      if src in es && |q| < |rep| && Under(rep, q) {
        ReplicaAncestorsSurvive(s, src, rep, q);
      }
    }
    TreesEqual(s1, p1);
  }

  /** The pruning pass of a second run removes nothing. */
  lemma SecondPruningIdle(s: Tree, src: Path, rep: Path)
    requires Disjoint(src, rep)
    ensures Pruned(Synchronized(s, src, rep), src, rep) == Synchronized(s, src, rep)
  {
    var p := Propagated(s, src, rep);
    var s1 := Synchronized(s, src, rep);
    var p1 := Pruned(s1, src, rep);
    PrunedFrame(p, src, rep, DirsUnder(p, rep), {});
    forall q | q in s1 ensures q in p1 {
      if Under(q, rep) {
        CounterpartOutside(q, src, rep);
        assert Unchanged(p, s1, Rebase(q, rep, src));
        assert !Gone(p, src, rep, DirsUnder(p, rep), {}, q);
        assert DirsUnder(s1, rep) <= DirsUnder(p, rep);
      }
    }
    forall q ensures Unchanged(s1, p1, q) {
    }
    TreesEqual(s1, p1);
  }

  /**
   * Running the synchronizer a second time over an unchanged source raises
   * nothing and leaves the filesystem as it is: no directory is created, no
   * file copied, nothing removed.
   */
  lemma SecondRunChangesNothing(s: Tree, src: Path, rep: Path)
    requires WellFormed(s) && Disjoint(src, rep) && !Blocked(s, src, rep)
    ensures !Blocked(Synchronized(s, src, rep), src, rep)
    ensures Synchronized(Synchronized(s, src, rep), src, rep) == Synchronized(s, src, rep)
  {
    SecondRunUnblocked(s, src, rep);
    SecondPropagationIdle(s, src, rep);
    SecondPruningIdle(s, src, rep);
  }
}
