# One-way directory synchronizer, modelled in Dafny

The program keeps a *replica* directory identical to a *source* directory.
One call of `synchronize_directories(source, replica)` makes two passes over
the filesystem.

1. **Propagation.** It walks the source tree top-down. It maps each directory
   to its replica path by replacing the source root with the replica root
   (`str.replace(old, new, 1)`). It creates the replica directory with
   `os.makedirs` when that path does not exist. It copies each file with
   `shutil.copy2` when its replica is missing or has a different MD5 checksum.
2. **Pruning.** It walks the replica tree bottom-up. It removes a replica
   directory whose source path does not exist with `shutil.rmtree`. In every
   other directory it removes each file whose source path does not exist with
   `os.remove`.

`calculate_md5_checksum` reads a file in 4096-byte chunks until an empty read,
and digests what it read.

The model is split into six modules.

- `Paths` (paths.dfy): paths as sequences of names, and the first-occurrence
  replacement `ReplaceFirst`. On walked paths the replacement is the prefix
  correspondence `Rebase`. `Render` is the string the program works on, and
  the string substitution agrees with `Rebase`.
- `Os` (os.dfy): the filesystem as a class `FileSystem` whose field `entries`
  maps each path to a `Dir` or a `File(content, mtime)`. `Valid()` says the
  root is a directory and every other entry sits in a directory. Its methods
  are `os.makedirs`, `shutil.copy2`, `shutil.rmtree` and `os.remove`, each
  with its exact effect and its failure condition. `Read` is `file.read`.
- `Mirror` (mirror.dfy): specification functions describing what a run does.
  - `PropagatedOver` and `PrunedOver` give the state once the walk has dealt
    with part of the tree.
  - `Propagated`, `Pruned` and `Synchronized = Pruned(Propagated(s))` give the
    state after the whole pass or run.
  - `BlockedAt` and `Blocked` say where and whether the propagation pass
    raises.
- `PropagationSteps` and `PruningSteps`: how those functions change when the
  walk deals with one more directory or file.
- `Script` (script.dfy): the program itself, in imperative form. Each loop
  of the source is a `while` loop over the walk, with the state described by
  the specification functions as its invariant. The loops are proved correct
  against those functions.
- `Properties` (properties.dfy): what a run guarantees, stated on the
  specification functions:
  - mirror completeness;
  - copy exactly when needed;
  - pruning exactly the orphans;
  - the source is never written;
  - a second run changes nothing.

Failures are modelled where the program raises. The outcome of a run is
`Failed(e)` at the source entry `e` whose step raised, and the filesystem is
left in the state reached so far. This happens when:

- `os.makedirs` meets an existing file among the ancestors;
- `shutil.copy2` writes into a replica directory that is a file;
- the checksum opens a replica path that is a directory.

`SynchronizeDirectories` returns `Done` exactly when `Blocked` does not hold
of the state before the run.

## Model

| member | source | states |
|---|---|---|
| Script.CalculateMd5Checksum | script.py:8-13 | The chunked reads of at most 4096 bytes, up to the first empty read, together give exactly the file's content. So the digest is that of the whole content: equal contents give equal digests. A path that is not a file gives no digest, because `open` raises. |
| Os.Read | script.py:11 | `file.read(4096)` returns at most 4096 bytes. They are the bytes at the current offset, and the result is empty only at the end of the data. |
| Paths.FirstOccurrence | script.py:18 | Finds the least index at which the pattern occurs, or reports that it occurs nowhere (the search `str.replace` performs). |
| Paths.ReplaceFirst | script.py:18 | `str.replace(pat, repl, 1)`, used here and at line 35: without any occurrence of the pattern the path is unchanged; with one, the result is the path with one pattern replaced, so its length changes by the difference in length. |
| Paths.ReplaceFirstAtLeastOccurrence | script.py:18 | Only the leftmost occurrence is replaced, and everything before and after it is kept. |
| Paths.ReplaceFirstAtStart | script.py:18 | When the path starts with the old root, the result is the new root followed by the unchanged rest. |
| Paths.CorrespondingPath | script.py:18 | On a walked source path the substitution is the prefix correspondence. The result lies under the replica root, substituting back (line 35) gives the original path, and the relative depth is kept. |
| Paths.WalkedPathSubstitution | script.py:35 | Replacing the first occurrence of the rendered root in the rendered walked path gives the rendered corresponding path. |
| Paths.RenderInjective | script.py:17 | Names are non-empty and hold no separator, so distinct paths render as distinct strings: the string paths `os.walk` yields and their component form determine each other. |
| Paths.ParentCorresponds | script.py:25-26 | Joining a file name onto the corresponding directory gives the corresponding path of the file. |
| Paths.RebaseInjective | script.py:18 | Distinct walked paths map to distinct replica paths. |
| Os.FileSystem.MakeDirs | script.py:21 | `os.makedirs` fails exactly when an existing ancestor is a file, and then creates nothing. Otherwise it creates the path and every missing ancestor as directories. The tree stays well formed either way. |
| Os.FileSystem.Copy2 | script.py:30 | `shutil.copy2` succeeds exactly when the target's parent is a directory. Then the target holds the source file's content and modification time, and nothing else changes. |
| Os.FileSystem.RemoveTree | script.py:38 | `shutil.rmtree` removes the directory and everything below it, and nothing else. |
| Os.FileSystem.Remove | script.py:47 | `os.remove` removes the one file. |
| Mirror.DirsUnder | script.py:17 | The directories `os.walk(root)` visits: every directory at or below the root. The bottom-up walk at line 34 visits the same set. |
| Mirror.FilesIn | script.py:17 | The file names `os.walk` lists for a visited directory: the files directly inside it, never subdirectories. Line 34 lists the same way. |
| Mirror.WalkedTree | script.py:17 | In a well-formed tree the walk visits the root exactly when it is a directory and visits nothing when the root is missing or a file. Every listed file lies directly inside its directory and so under the root. |
| Mirror.NeedsCopy | script.py:28-29 | A source file is copied when its replica path does not exist or is a file whose checksum, standing for the content, differs. |
| Mirror.BlockedAt | script.py:20-30 | The conditions under which dealing with a source entry raises. (1) makedirs of a missing replica root below a file (line 21). (2) The replica directory of the entry is a file, so nothing can be created in it: makedirs raises for a subdirectory (line 21) and `shutil.copy2` for a file (line 30). (3) The replica path of a source file is a directory, so its checksum cannot be opened (line 29). |
| Mirror.Orphan | script.py:37 | A replica entry has no source counterpart: the path obtained by substituting the source root does not exist. The directory test at line 37 and the file test at line 46 are both this test. |
| Script.Fingerprint | script.py:13 | Stands for `hexdigest()` of the bytes read. Two contents get equal digests exactly when they are equal. |
| Script.CopyFile | script.py:25-31 | One listed source file. The call raises, and changes nothing, exactly when the step is blocked. Otherwise the state is the specification state with this file dealt with: copied exactly when the replica is missing or its checksum differs. |
| Script.CopyFiles | script.py:24-31 | The loop over the files of one directory either deals with all of them or raises at a blocked one. What it dealt with lies between the entries it started from and those plus the listed files, and none of it was blocked. The raising file is one it had not dealt with. The state is always the specification state for what was dealt with. |
| Script.MakeReplicaDir | script.py:20-21 | The replica counterpart of a walked directory is created when its path does not exist. The call fails, and changes nothing, exactly when that step is blocked. Otherwise the state is the specification state with the directory dealt with. |
| Script.PropagateDir | script.py:18-31 | One directory of the top-down walk. The replica directory is created when its path does not exist, and makedirs raises exactly when that step is blocked. Then its files are dealt with. What was dealt with lies between the entries before this directory and those plus the directory and its files, none of it blocked. When it raises, the raising entry is blocked and was not dealt with. |
| Script.Propagate | script.py:17-31 | The propagation pass raises exactly when `Blocked`. Without raising it leaves `Propagated(old)`. No entry it dealt with was blocked. When it raises, the raising entry is a blocked source entry it had not dealt with, and the state is the specification state for what was dealt with. |
| Script.PruneFile | script.py:43-48 | One listed replica file is removed exactly when its source path does not exist. |
| Script.PruneFiles | script.py:42-48 | After the loop over one directory's listed files, the state is the specification state with all of them dealt with. |
| Script.Prune | script.py:34-48 | The bottom-up pruning pass leaves exactly `Pruned(old)`. |
| Script.SynchronizeDirectories | script.py:15-48 | A run raises exactly when propagation is blocked. Otherwise it leaves `Synchronized(old)`: propagation, then pruning. When it raises, the raising entry is a blocked source entry, none of the entries dealt with before it was blocked, and the state is the propagation state for those entries. |
| PropagationSteps.PropagatedAt | script.py:17-31 | Which paths exist once a set of source entries is dealt with, and what each holds. |
| PropagationSteps.PropagatedFrame | script.py:15-31 | Propagation only adds or changes entries at or below the replica root, plus missing ancestors of the replica root. Every path under the source root is unchanged. |
| PropagationSteps.DirStepExisting | script.py:20 | A source directory whose replica path exists: nothing is created and nothing raises. |
| PropagationSteps.RootStepMissing | script.py:20-21 | A missing replica root: makedirs raises exactly when an existing ancestor of it is a file. Otherwise it creates the root and its missing ancestors. |
| PropagationSteps.SubdirBlocked | script.py:20-21 | A missing replica subdirectory: makedirs raises exactly when the parent's replica counterpart is a file. |
| PropagationSteps.SubdirMade | script.py:21 | A missing replica subdirectory whose step is not blocked: makedirs adds that one directory, which is the specification state with it dealt with. |
| PropagationSteps.DirStepMissing | script.py:20-21 | The two cases together: the raise condition of makedirs is `BlockedAt`, and success gives the next specification state. |
| PropagationSteps.CopyStep | script.py:25-30 | One source file. The replica path is the replica directory joined with the name. The step raises exactly when the replica path is a directory or the replica directory is a file. Otherwise the next state is unchanged, or has the source file copied, exactly as `NeedsCopy` says. |
| PropagationSteps.SourceListingKept | script.py:17 | The listing of a source directory is the same when the walk reaches it as in the original tree. |
| PropagationSteps.TopDownNext | script.py:17 | The top-down walk can always continue with an unvisited directory that is the root or whose parent was visited. |
| PruningSteps.PrunedFrame | script.py:34-48 | Pruning only removes entries, and only at or below the replica root. |
| PruningSteps.CounterpartOutside | script.py:35 | The source path of a replica entry lies under the source root and outside the replica, where pruning never writes. |
| PruningSteps.OrphanBelow | script.py:37-38 | Below a replica directory without a source counterpart, no entry has one. |
| PruningSteps.VisitDir | script.py:34 | A directory the bottom-up walk reaches is still there, with every file it was listed with. |
| PruningSteps.RemoveTreeStep | script.py:37-40 | rmtree of an orphan directory whose subdirectories were all visited gives the specification state with it visited. |
| PruningSteps.RemoveStep | script.py:43-47 | One listed replica file is present and is removed exactly when it is an orphan, which gives the next specification state. |
| PruningSteps.FinishDir | script.py:42-48 | Once every file of a non-orphan directory is dealt with, the directory counts as visited. |
| PruningSteps.BottomUpNext | script.py:34 | The bottom-up walk can always continue with an unvisited directory that has no unvisited directory below it. |
| Properties.DirectoriesMirrored | script.py:17-22 | After propagation every source directory, the root included, has a replica counterpart: the entry that was there, or a new directory. |
| Properties.NonEmptyDirectoriesMirroredAsDirectories | script.py:20-30 | Only existence is checked, so a replica file facing a source directory is kept. But when the pass does not raise, every source directory with an entry in it has a directory as its counterpart. |
| Properties.FilesMirrored | script.py:28-30 | A replica file is written, with the source's content and modification time, exactly when it was missing or its checksum differed. Otherwise it is left as it was. Either way it holds the source content. |
| Properties.PrunedExactly | script.py:34-48 | Pruning removes a replica entry below the root exactly when its source path does not exist. The replica root goes when it is a directory without source counterpart. Nothing outside the replica is touched, and surviving entries are unchanged. |
| Properties.OrphanSubtreeRemoved | script.py:37-40 | A replica directory without source counterpart goes with its whole subtree. |
| Properties.MissingSourceRoot | script.py:34-40 | With no source root nothing is propagated and nothing raises. Pruning then removes everything below the replica root, and the root itself when it is a directory. |
| Properties.SourceUntouched | script.py:15-48 | A whole run never writes at or below the source root. Every difference is at or below the replica root, or a created ancestor of it. |
| Properties.SameSource | script.py:17 | Trees that agree at and below the source root have the same source walk. |
| Properties.CounterpartSurvives | script.py:37-46 | The replica counterpart of every source entry exists after propagation and survives pruning unchanged. |
| Properties.PropagatedWellFormed | script.py:17-31 | When propagation does not raise, every entry it creates sits in a directory: a replica directory's parent is the counterpart of a source directory or an ancestor of the replica root made by makedirs. So the pruning pass starts from a well-formed tree. |
| Properties.MirrorExact | script.py:15-48 | After a run that does not raise, a path strictly below the replica root exists exactly when its source counterpart is an entry the walk of the source lists. Nothing is missing from the replica, and nothing extra remains. |
| Properties.SecondRunUnblockedAt | script.py:20-29 | In a second run, no source entry's step raises: the replica root exists, each replica directory with entries below it is a directory, and each replica file is a file. |
| Properties.SecondRunUnblocked | script.py:20-29 | A second run over an unchanged source raises at no entry. |
| Properties.SecondPropagationIdle | script.py:20-30 | In a second run, the counterpart of every source directory exists, so makedirs is not called (line 20), and no source file needs a copy: its replica exists with the same content (lines 28-29). So propagation creates and copies nothing and leaves the state as it is. |
| Properties.SecondPruningIdle | script.py:37-47 | In a second run, pruning removes nothing. |
| Properties.SecondRunChangesNothing | script.py:15-48 | Running the synchronizer again over an unchanged source raises nothing and leaves the filesystem exactly as it is. |

## Left out

- `main`, argument parsing, `logging` and the endless `while True` / `time.sleep` schedule (script.py:50-65) are not modelled, and neither are the `logging.info` calls inside the passes. They have no effect on the filesystem.
- MD5 is not modelled. The digest is taken to tell contents apart (`Fingerprint` is the bytes themselves), so the model ignores hash collisions.
- Paths are sequences of names. Trailing separators, `.`/`..`, symbolic links and non-canonical spellings of the two roots are not modelled. For a walked path the string substitution agrees with the component-wise correspondence, as `Paths.WalkedPathSubstitution` shows, because such a path always starts with the root string.
- The two roots must be disjoint: neither lies at or below the other. The program does not check this, and without it the source is not safe. With the replica at `/r` and the source at `/r/s`, the bottom-up walk of `/r` reaches `/r/s` and maps it to `/r/s/s`. When that path is missing, `shutil.rmtree("/r/s")` (script.py:35-38) deletes the source tree. `Properties.SourceUntouched` holds only because of this precondition. Nested roots are not modelled.
- `os.walk` is modelled as a choice. The top-down walk takes any unvisited directory whose parent was visited, and the bottom-up walk takes any unvisited directory with nothing unvisited below it. The orders `os.walk` actually produces are among these. With `topdown=False`, `os.walk` lists a directory before descending into it, while the model takes the listing when the directory is visited, after its subdirectories. `PruningSteps.VisitDir` proves the two listings agree, because pruning below a directory never removes that directory's own files.
- Operating-system failures other than those the tree itself causes are not modelled: permissions, files that vanish or change mid-run, full disks, and concurrent writers. The same goes for metadata `shutil.copy2` preserves beyond content and modification time.
- Os.FileSystem.Copy2: copying onto an existing directory is excluded by its precondition. `shutil.copy2` would copy into that directory instead, but the program never reaches that case, because the checksum of a replica directory raises first.
- Script.CopyFile does not treat the source file's digest as able to fail. The source entry is a file that the pass never writes, so `Script.CalculateMd5Checksum` always returns a digest for it, and only the replica's checksum can raise. `Script.CalculateMd5Checksum` itself returns `None` for any path that is not a file, whichever side it is called on.
- Script.SynchronizeDirectories: on failure the contract does not say which blocked entry raises or exactly which entries were dealt with before it. Both depend on the walk order, which is a choice. It does say that the raising entry was not dealt with and that no entry dealt with was blocked.
