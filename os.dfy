/**
 * The part of the operating system the synchronizer relies on: one tree of
 * directories and files addressed by path, and the calls `os.makedirs`,
 * `shutil.copy2`, `shutil.rmtree`, `os.remove` and `file.read`, each with the
 * effect and the failure condition it has on such a tree.
 */
module Os {
  import opened Paths

  newtype byte = b: int | 0 <= b < 256

  /** A directory, or a file with its bytes and its modification time. */
  datatype Node = Dir | File(content: seq<byte>, mtime: int)

  /** Every entry of the filesystem, by path. */
  type Tree = map<Path, Node>

  predicate IsDir(m: Tree, p: Path) {
    p in m && m[p].Dir?
  }

  predicate IsFile(m: Tree, p: Path) {
    p in m && m[p].File?
  }

  /** The root is a directory and every other entry sits in a directory. */
  ghost predicate WellFormed(m: Tree) {
    && IsDir(m, [])
    && forall p :: p in m && p != [] ==> IsDir(m, Parent(p))
  }

  /** Every proper prefix of an existing path is an existing directory. */
  lemma {:induction false} AncestorIsDir(m: Tree, p: Path, i: nat)
    requires WellFormed(m) && p in m && i < |p|
    ensures IsDir(m, p[..i])
    decreases |p|
  {
    var q := Parent(p);
    if i < |q| {
      AncestorIsDir(m, q, i);
      assert q[..i] == p[..i];
    } else {
      assert p[..i] == q;
    }
  }

  /** Some proper prefix of `p` is a file, so nothing can be created at `p`. */
  predicate HasFileAncestor(m: Tree, p: Path) {
    exists i :: 0 <= i < |p| && IsFile(m, p[..i])
  }

  /** The prefixes of `p` of length below `n`. */
  function Prefixes(p: Path, n: nat): set<Path> {
    set i | 0 <= i < n && i <= |p| :: p[..i]
  }

  /** `m` with a directory added at each path of `ps` that is not there yet. */
  function AddDirs(m: Tree, ps: set<Path>): Tree {
    map q | q in m.Keys + ps :: if q in m then m[q] else Dir
  }

  /** `file.read(size)` at offset `pos`: at most `size` bytes, empty only at the end of the data. */
  function Read(data: seq<byte>, pos: nat, size: nat): (chunk: seq<byte>)
    requires pos <= |data|
    ensures |chunk| <= size && pos + |chunk| <= |data|
    ensures chunk == data[pos..pos + |chunk|]
    ensures chunk == [] <==> pos == |data| || size == 0
  {
    if pos + size <= |data| then data[pos..pos + size] else data[pos..]
  }

  /** Adding the next prefix of `p` to `AddDirs(m, Prefixes(p, i))`. */
  lemma PrefixesStep(m: Tree, p: Path, i: nat)
    requires 1 <= i <= |p|
    ensures p[..i] in AddDirs(m, Prefixes(p, i)) <==> p[..i] in m
    ensures p[..i] !in m ==>
      AddDirs(m, Prefixes(p, i))[p[..i] := Dir] == AddDirs(m, Prefixes(p, i + 1))
    ensures p[..i] in m ==> AddDirs(m, Prefixes(p, i)) == AddDirs(m, Prefixes(p, i + 1))
  {
    assert Prefixes(p, i + 1) == Prefixes(p, i) + {p[..i]};
    assert p[..i] !in Prefixes(p, i);
  }

  /** When the `i`-th prefix of `p` exists, so do all shorter ones: adding them changes nothing. */
  lemma ExistingPrefixes(m: Tree, p: Path, i: nat)
    requires WellFormed(m) && 1 <= i <= |p| && p[..i] in m
    ensures AddDirs(m, Prefixes(p, i)) == m
  {
    forall j | 0 <= j < i ensures p[..j] in m {
      AncestorIsDir(m, p[..i], j);
      assert p[..i][..j] == p[..j];
    }
    assert Prefixes(p, i) <= m.Keys;
  }

  /** When every proper prefix of a missing `p` exists, creating the prefixes of `p` creates `p` alone. */
  lemma AddDirsLast(m: Tree, p: Path)
    requires p !in m && forall i :: 0 <= i < |p| ==> p[..i] in m
    ensures AddDirs(m, Prefixes(p, |p| + 1)) == m[p := Dir]
  {
    assert p == p[..|p|];
    forall q | q in Prefixes(p, |p| + 1) ensures q in m.Keys + {p} {
      var i :| 0 <= i < |p| + 1 && i <= |p| && q == p[..i];
    }
    assert AddDirs(m, Prefixes(p, |p| + 1)).Keys == m.Keys + {p};
  }

  lemma AddDirKeepsWellFormed(m: Tree, q: Path)
    requires WellFormed(m) && q != [] && q !in m && IsDir(m, Parent(q))
    ensures WellFormed(m[q := Dir])
  {
  }

  /** `os.makedirs` creating the missing `i`-th prefix of `p` extends what it has made so far. */
  lemma MakeNextPrefix(m0: Tree, m: Tree, p: Path, i: nat)
    requires 1 <= i <= |p| && WellFormed(m) && m == AddDirs(m0, Prefixes(p, i))
    requires forall j :: 0 <= j < i ==> IsDir(m, p[..j])
    requires p[..i] !in m
    ensures WellFormed(m[p[..i] := Dir]) && !IsFile(m0, p[..i])
    ensures m[p[..i] := Dir] == AddDirs(m0, Prefixes(p, i + 1))
    ensures forall j :: 0 <= j < i + 1 ==> IsDir(m[p[..i] := Dir], p[..j])
  {
    PrefixesStep(m0, p, i);
    assert Parent(p[..i]) == p[..i - 1];
    AddDirKeepsWellFormed(m, p[..i]);
    forall j | 0 <= j < i + 1 ensures IsDir(m[p[..i] := Dir], p[..j]) {
      if j < i {
        assert IsDir(m, p[..j]);
        assert |p[..j]| != |p[..i]|;
      }
    }
  }

  /** `os.makedirs` meeting an existing directory as the `i`-th prefix of `p`: nothing to create. */
  lemma KeepNextPrefix(m0: Tree, m: Tree, p: Path, i: nat)
    requires 1 <= i <= |p| && m == AddDirs(m0, Prefixes(p, i))
    requires forall j :: 0 <= j < i ==> IsDir(m, p[..j])
    requires IsDir(m, p[..i])
    ensures !IsFile(m0, p[..i])
    ensures m == AddDirs(m0, Prefixes(p, i + 1))
    ensures forall j :: 0 <= j < i + 1 ==> IsDir(m, p[..j])
  {
    PrefixesStep(m0, p, i);
  }

  class FileSystem {
    var entries: Tree

    ghost predicate Valid()
      reads this
    {
      WellFormed(entries)
    }

    constructor (initial: Tree)
      requires WellFormed(initial)
      ensures Valid() && entries == initial
    {
      entries := initial;
    }

    /**
     * `os.makedirs(p)` for a missing `p`: creates `p` and every missing
     * ancestor; when an existing ancestor is a file it fails and creates nothing.
     */
    method MakeDirs(p: Path) returns (ok: bool)
      requires Valid() && p !in entries
      modifies this
      ensures Valid()
      ensures ok <==> !HasFileAncestor(old(entries), p)
      ensures entries == if ok then AddDirs(old(entries), Prefixes(p, |p| + 1)) else old(entries)
    {
      var i := 1;
      assert p[..0] == [];
      while i <= |p|
        invariant 1 <= i <= |p| + 1
        invariant Valid()
        invariant entries == AddDirs(old(entries), Prefixes(p, i))
        invariant forall j :: 0 <= j < i ==> IsDir(entries, p[..j])
        invariant forall j :: 0 <= j < i ==> !IsFile(old(entries), p[..j])
      {
        var q := p[..i];
        if q !in entries {
          MakeNextPrefix(old(entries), entries, p, i);
          entries := entries[q := Dir];
        } else if entries[q].File? {
          // q predates the call, and with it every ancestor: nothing was created
          PrefixesStep(old(entries), p, i);
          ExistingPrefixes(old(entries), p, i);
          assert q in old(entries) && q != p;
          assert i < |p| && IsFile(old(entries), p[..i]);
          return false;
        } else {
          KeepNextPrefix(old(entries), entries, p, i);
        }
        i := i + 1;
      }
      ok := true;
    }

    /**
     * `shutil.copy2(from, to)`: the file at `to` becomes a copy of `from`,
     * content and modification time; fails when `to`'s parent is not a directory.
     */
    method Copy2(from: Path, to: Path) returns (ok: bool)
      requires Valid() && IsFile(entries, from) && to != [] && !IsDir(entries, to)
      modifies this
      ensures Valid()
      ensures ok <==> IsDir(old(entries), Parent(to))
      ensures entries == if ok then old(entries)[to := old(entries)[from]] else old(entries)
    {
      ok := IsDir(entries, Parent(to));
      if ok {
        entries := entries[to := entries[from]];
      }
    }

    /** `shutil.rmtree(p)`: removes the directory `p` and everything below it. */
    method RemoveTree(p: Path)
      requires Valid() && IsDir(entries, p) && p != []
      modifies this
      ensures Valid()
      ensures entries == map q | q in old(entries) && !Under(q, p) :: old(entries)[q]
    {
      entries := map q | q in entries && !Under(q, p) :: entries[q];
    }

    /** `os.remove(p)` on a file. */
    method Remove(p: Path)
      requires Valid() && IsFile(entries, p)
      modifies this
      ensures Valid()
      ensures entries == old(entries) - {p}
    {
      entries := entries - {p};
    }
  }
}
