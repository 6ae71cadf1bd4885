# Folder synchronisation engine, modelled in Dafny

The engine in `modules/sync.py` makes a replica directory tree mirror a
source tree. `sync_directories` creates the replica root when it is missing,
then runs two passes in order:

- `create_or_update` walks the source top-down. It creates every directory
  the replica lacks. It copies every file whose replica counterpart is
  missing or has a different MD5 fingerprint.
- `delete_files` walks the replica top-down. It removes, with its whole
  subtree, every directory that has no counterpart in the source. In the
  directories that stay, it removes every file with no counterpart in the
  source.

The model is functional.

- A tree is a map from relative paths to nodes: `FileTree.Tree`, with
  `Node = Dir | File(content)`. Every proper prefix of a present path is a
  present directory (`FileTree.WellFormed`).
- The OS calls `os.makedirs`, `shutil.copy2`, `os.remove` and
  `shutil.rmtree` are pure map updates. The conditions under which they
  raise are their preconditions. The one exception is a directory at the
  target of a copy: `shutil.copy2` would copy into it, but the fingerprint
  check just before (`modules/sync.py:31`) already fails on a directory, so
  that case is excluded as well.
- Each `logging.info` call appends an event to a log returned beside the
  tree (`SyncLog.Event`, `SyncLog.Outcome`).
- The fingerprint function is a parameter `hash`.
- `os.walk` is modelled by `Walking.WalkTree`. It is a top-down list of
  directories, each with the names of the files directly in it. The order
  comes from a listing order over paths, which is an input. The source walk
  and the replica walk each have their own listing order. Every result
  holds for every top-down order, and the depth-first order of `os.walk` is
  one of them.

Each pass is modelled twice. The first model follows the code entry by
entry: `UpdatePass.UpdateWalk` and `PrunePass.PruneWalk`. The second says
declaratively what the pass is meant to leave and log:

- `UpdatePass.Settled` and `UpdatePass.Actions` describe the first pass;
- `PrunePass.Surviving` and `PrunePass.Deletions` describe the second.

Lemmas prove the two models agree. The whole run then meets these promises:

- the replica ends with exactly the source's paths and kinds;
- files end with the source's fingerprint;
- a replica node that already matched is left untouched;
- when fingerprints do not collide, the replica equals the source;
- when the source root exists, a second run changes nothing and logs
  nothing.

Two conditions are assumed (`Sync.SyncInputs`):

- both trees are well formed (`FileTree.WellFormed`), which also means a
  present source or replica root is a directory, not a regular file;
- at every path present in both trees, the two nodes are of the same kind
  (`FileTree.KindsAgree`).

Without the second, the code either crashes or, in one case, never
converges. What the code does outside the first is described under "Left
out".

## Model

| member | source | states |
|---|---|---|
| FileTree.MakeDirs | modules/sync.py:25 | `os.makedirs` adds the directory and any missing directories above it, all as directories. It changes nothing already present and keeps the tree well formed. With the parent present, it adds exactly the one path. |
| FileTree.CopyFile | modules/sync.py:32 | `shutil.copy2` leaves the given content at the target path, replacing a file already there. It needs the parent directory present. Every other path is unchanged and the tree stays well formed. |
| FileTree.RemoveFile | modules/sync.py:59 | `os.remove` takes away exactly the one file. Everything else is unchanged and the tree stays well formed. |
| FileTree.RmTree | modules/sync.py:51 | `shutil.rmtree` takes away exactly the directory and the paths beneath it. The rest is unchanged and the tree stays well formed. |
| Walking.FileNames | modules/sync.py:21 | The files listed for a directory are exactly the files directly inside it, each named once. |
| Walking.WalkTreeIsWalk | modules/sync.py:21 | A walk derived from any listing order has these properties: each directory of the tree appears exactly once, parents come before children, and each entry lists exactly its directory's files. |
| Walking.WalkCoversTree | modules/sync.py:47 | A walk reaches every path of a well-formed tree and nothing else. Every directory is reached as an entry and every file in its parent's file list. |
| Walking.RootsParentClosed | modules/sync.py:21 | In a top-down walk, the parent of every visited directory other than the root was visited too. |
| UpdatePass.VisitDir | modules/sync.py:22-26 | A walked source directory exists in the replica afterwards, with any missing directories above it. The step only adds: every path already there keeps its node. It logs at most the creation of that directory, and a step that logs nothing changes nothing. |
| UpdatePass.CopyIfChanged | modules/sync.py:29-33 | A source file's copy is logged if and only if the replica lacks a file with the source's fingerprint at that path. A logged copy leaves the source's node there and touches no other path. A step that logs nothing changes nothing. Kinds keep agreeing. |
| UpdatePass.CopyFiles | modules/sync.py:28-33 | The file loop keeps the walked directory in place and only adds or overwrites files with the source's nodes. It logs only copies of source files directly inside the walked directory. |
| UpdatePass.VisitEntry | modules/sync.py:22-33 | One iteration of the walk loop only adds paths or overwrites files with the source's nodes. It logs only creations and copies of source paths. |
| UpdatePass.UpdateWalk | modules/sync.py:21-33 | The whole loop never removes a path, and it writes only source nodes. It keeps the replica well formed with kinds agreeing. It logs no deletion. |
| UpdatePass.VisitEntryOrder | modules/sync.py:22-33 | One loop iteration logs only its directory's creation and copies of files directly inside it, the creation first. |
| UpdatePass.DirThenFiles | modules/sync.py:24-33 | A directory's creation record followed by copies of files directly in it puts the creation before each of them. |
| UpdatePass.OrderedConcat | modules/sync.py:21-33 | Appending one iteration's records to an ordered log keeps every creation before the records directly inside the created directory, when the earlier log names nothing inside the new directory. |
| UpdatePass.UpdateWalkOrder | modules/sync.py:21-33 | The loop logs only creations of walked directories and copies of files directly inside walked directories. A directory's creation comes before every creation or copy directly inside it. |
| UpdatePass.VisitDirSettles | modules/sync.py:24-26 | Visiting a directory settles exactly that path. The directory is created and logged if and only if nothing exists there. |
| UpdatePass.CopyIfChangedSettles | modules/sync.py:31-33 | Visiting a file settles exactly that path. It takes the source's node, logging one copy, if and only if the replica lacks the file or its fingerprint differs. Otherwise it is untouched and unlogged. |
| UpdatePass.CopyFilesSettles | modules/sync.py:28-33 | The file loop settles exactly the listed files. It logs exactly one copy per file that needed one. |
| UpdatePass.VisitEntrySettles | modules/sync.py:22-33 | One loop iteration settles exactly the entry's directory and files, with an exact log of the actions they needed. |
| UpdatePass.WalkStepSettles | modules/sync.py:21-33 | After one more entry, the settled path set grows by exactly that entry's paths. The concatenated log is an exact log of the actions over all of them. |
| UpdatePass.UpdateWalkSettles | modules/sync.py:21-33 | A prefix of a top-down walk of the source leaves this replica: source nodes at the reached paths that needed action, and the original replica elsewhere. It logs exactly one record per such action, none twice. |
| UpdatePass.ActionsPathwise | modules/sync.py:24-33 | The intended log, path by path. A source directory is recorded created if and only if it was missing. A source file is recorded copied if and only if it was missing or its fingerprint differed. |
| UpdatePass.CreateOrUpdate | modules/sync.py:10-33 | Every source path ends present with the source's kind, and files end with the source's fingerprint. Matching replica nodes are untouched and nothing is removed. Only source nodes are added or written over files. There is one record per directory created and per file copied, if and only if it needed it, and no record twice. A directory's creation is logged before anything directly inside it. |
| PrunePass.RemoveMissing | modules/sync.py:55-60 | A listed file stays if and only if its mirrored source path exists, whatever its kind. Other paths and all remaining nodes are untouched. Only file removals are logged. |
| PrunePass.RemoveMissingLogs | modules/sync.py:55-60 | The file loop logs exactly one removal per listed file missing from the source, none twice. |
| PrunePass.PruneDir | modules/sync.py:48-60 | One loop iteration only removes and logs only removals. An entry whose directory was already removed with an ancestor changes nothing and logs nothing. |
| PrunePass.PruneDirSettles | modules/sync.py:48-60 | After one more entry, the replica is what the intended effect prescribes for the reached paths plus that entry's paths. |
| PrunePass.PruneWalk | modules/sync.py:47-60 | A prefix of a top-down walk of the replica removes exactly these paths: each replica path with some reached path on its way down, itself included, missing from the source. |
| PrunePass.PruneWalkLogs | modules/sync.py:47-60 | The loop logs exactly one record per reached replica path that is missing from the source while all its ancestors exist there, none twice. |
| PrunePass.SurvivingAll | modules/sync.py:47-60 | Once every replica path is reached, a path survives if and only if every path from the root down to it exists in the source. The result is well formed. |
| PrunePass.DeleteFiles | modules/sync.py:35-60 | A replica path stays, untouched, if and only if every path from the root down to it exists in the source. For a well-formed source these are the shared paths. A directory or file removal is logged if and only if the path is missing from the source while its ancestors are there. The log holds exactly these, none twice. |
| PrunePass.DeletedDirTakesSubtree | modules/sync.py:50-53 | A directory the pass logs as removed is gone afterwards, together with everything beneath it. |
| PrunePass.NoRecordBeneath | modules/sync.py:50-53 | In a log of topmost missing paths, nothing beneath a recorded directory is recorded except that directory. |
| PrunePass.NothingLoggedBeneath | modules/sync.py:50-53 | The pass logs nothing for the paths beneath a directory it removed, because those paths are never visited. |
| Sync.EnsureRoot | modules/sync.py:74-76 | The replica root exists afterwards as a directory, with everything else unchanged. Its creation is logged, once, if and only if it was missing. |
| Sync.SyncDirectories | modules/sync.py:63-78 | The replica ends with exactly the source's paths, each of the source's kind, and files with the source's fingerprint. A matching replica node is left exactly as it was. Every other source path holds the source's node. The result is well formed. |
| Sync.SyncStages | modules/sync.py:74-78 | The run is the root step, then the first pass to completion on its result, then the second pass on that. The log is the three logs in that order, and each stage leaves its intended tree and exact log. |
| Sync.SyncCreationLog | modules/sync.py:74-78 | Over the whole run, a source directory is logged created if and only if the replica lacked it. A source file is logged copied if and only if the replica lacked it or its fingerprint differed. Every other non-removal record is the root's creation. |
| Sync.SyncDeletionLog | modules/sync.py:74-78 | Over the whole run, a replica path missing from the source is logged removed if and only if all its ancestors exist in the source. The root is logged removed if and only if the source root is missing. Removals name only paths absent from the source. |
| Sync.RootAroundOrdered | modules/sync.py:74-78 | Records about the root before an ordered log, and removals after it, keep each directory's creation before anything directly inside it. |
| Sync.SyncLogOrder | modules/sync.py:74-78 | The root's creation is logged if and only if the root was missing, and then it is first. Every removal comes after every creation and copy. A directory's creation comes before every creation or copy directly inside it. No record appears twice. |
| Sync.SyncConverges | modules/sync.py:74-78 | When equal fingerprints mean equal content, the replica ends equal to the source. |
| Sync.RerunKeepsTree | modules/sync.py:74-78 | On a replica that already mirrors the source, a run leaves the tree as it is. |
| Sync.RerunLogsNothing | modules/sync.py:74-78 | On a replica that already mirrors the source, with the source root present, a run logs nothing. |
| Sync.SyncIdempotent | modules/sync.py:74-78 | With the source root present, a second run straight after a first changes nothing and logs nothing. This holds even when fingerprints collide, and whatever order either directory is listed in the second time. |
| Sync.RootlessRecords | modules/sync.py:47-53 | Without a source root, the first pass acts nowhere and logs nothing. The second pass removes the replica root alone and leaves nothing. |
| Sync.SyncMissingSource | modules/sync.py:74-78 | Without a source root, the replica ends empty. The log is the root's creation, if it was missing, followed by the root's removal. |

## Left out

- `sync_folders.py` (argument parsing, logging set-up, the periodic loop and its sleeping) is not part of this model. It holds no synchronisation logic.
- `modules/hash_check.py` is not part of this model. The MD5 fingerprint is the parameter `hash`, and convergence assumes that equal fingerprints mean equal content (`Sync.NoCollisions`).
- The metadata `shutil.copy2` also copies, symbolic links and special files are not modelled. Only path existence, kind and content are.
- Failures are not modelled as outcomes. The code catches no exception, so every condition under which a step would raise is a precondition. Examples: copying into a missing directory, `os.remove` on a directory, and a kind mismatch at a shared path.
- Sync.SyncDirectories: requires the two trees to agree on the kind at every shared path. The code also runs, without crashing, in one case this excludes: the source holds an empty directory where the replica holds a file. The existence test at line 24 then skips `os.makedirs`, and the one at line 58 keeps the file, so the replica never converges. That outcome is not modelled.
- Sync.SyncDirectories: requires a present source root to be a directory (`Sync.SyncInputs` asks for a well-formed source). A `source` argument naming a regular file is not modelled. For it, `os.walk` at line 21 yields nothing, and the existence test at line 50 fails for the replica root, so the code removes the whole replica, the outcome `Sync.SyncMissingSource` proves for a missing source.
- Sync.SyncDirectories: requires a present replica root to be a directory (`Sync.SyncInputs` asks for a well-formed replica). A `replica` argument naming a regular file is not modelled. When the source root is missing too, the test at line 74 finds the file, `os.walk` at line 21 yields nothing, and `os.walk` at line 47 swallows the error of listing a file and yields nothing, so the file stays and nothing is logged; `Sync.SyncMissingSource` does not describe this case. When the source root is present, the existence test at line 24 fails for the replica root and `os.makedirs` at line 25 raises.
- Paths are compared name by name, exactly (`FileTree.Path` is a sequence of names). This models a case-sensitive file system that does not normalise names. On a case-insensitive one, the existence tests at lines 24, 31, 50 and 58 would match `A.txt` with `a.txt`, and `Sync.SyncConverges` and the set of paths `PrunePass.DeleteFiles` keeps would not hold there.
- No other process writes to either directory during a run. The walks are listed up front on that assumption, and nothing in the model accounts for concurrent changes.
- A source and a replica that are the same directory or nest inside each other are not modelled. The code does not define the result.
- Log timestamps, levels and message text are not modelled, and neither are absolute paths in messages. An event records its kind and the path relative to the tree root.
- `os.walk` lists a directory when it reaches it. The model lists every directory when the pass starts. This gives the same entries: the first pass does not change the source, and the second only removes the current directory's files or subtrees it will then not enter. A directory removed by an earlier `rmtree` yields no entry, as `os.walk` swallows the listing error.
- The two walks list paths in two independent listing orders, both inputs. Every proved property holds for every pair of such orders, so nothing depends on the order `os.walk` happens to use.
