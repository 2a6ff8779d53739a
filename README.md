# dotfiles symlink manager — a Dafny model

This project models the core of a dotfiles manager that keeps the real
files in a repository (`dotfiles/`) and makes the home directory point
at them with symbolic links. It models both command-line tools:

- `dotman.py`, which has three commands:
  - `restore` links every repository entry into the home directory;
  - `stow` moves a hidden home path into the repository and leaves a link behind;
  - `unstow` removes such a link and moves the entry back.
- `restore.py`, an older restore-only tool whose loop is the same except for two things:
  - it never links a `config__<app>` directory as a whole;
  - it never replaces an empty placeholder directory without `--force`.

The filesystem is a map from absolute paths (sequences of name segments)
to entries: a file with an inode number, a directory, or a symbolic link
to an absolute path.

- Link resolution is defined in the model. It walks the path component by
  component and gives up once links nest more than 40 deep, the
  `MAXSYMLINKS` of Linux. A loop always reaches that depth; a long chain
  without a loop reaches it too (see "Left out").
- The identity tests `_is_same_symlink` and
  `_is_same_file_or_resolves_to_same` are written in terms of that
  resolution.
- System calls (`mkdir -p`, `symlink`, `rmdir`, `unlink`, `rename`, and a
  same-device `shutil.move`) are functions on the map.
- The class `Fs.FileSystem` owns the tree and is the only place it changes.

Every command is an imperative method on that class. Each one is proved equal to a
specification function of the old tree: `(result, fs.tree) == Spec(old(fs.tree), ...)`.
The properties are proved about those functions:

- which outcome (LINK, SKIP, CONFLICT) each state leads to;
- that a dry run changes nothing;
- that a second restore over links already in place skips everything;
- that unstowing a stowed path restores the tree exactly;
- that the naming convention (`config__app` ↔ `~/.config/app`,
  `local__bin__scripts` ↔ `~/.local/bin/scripts`, `name` ↔ `~/.name`) is a
  round trip where it can be, and where it cannot.

Modules (one file each):

| file | module | contents |
|---|---|---|
| `results.dfy` | `Results` | `Option`, `Result` |
| `strings.dfy` | `Strings` | `str.split("__")`, `"__".join`, decimal rendering, `PurePath.suffix` |
| `paths.dfy` | `Paths` | paths, parents, names, the string and path orders of Python and pathlib |
| `names.dfy` | `Names` | `_map_top_level_to_home` / `_map_top_level`, `repo_dest_for_home_path` |
| `fs.dfy` | `Fs` | the tree, resolution, the identity tests, the system calls, the `FileSystem` class |
| `listing.dfy` | `Listing` | the pairs `iter_restore_links` and `iter_links` produce |
| `engine.dfy` | `Engine` | code both tools share: backup names, `_mkdirp`, `link_path` / `link_file`, the restore loop |
| `dotman.dfy` | `Dotman` | the `dotman.py` commands as methods, the stow and unstow specifications and their lemmas |
| `restore.dfy` | `Restore` | the `restore.py` commands as methods |

## Model

| member | source | states |
|---|---|---|
| Strings.JoinSplit | dotman.py:137 | `"__".join(name.split("__"))` gives back the name: the split loses nothing |
| Strings.SplitAfter | dotman.py:137 | the split cuts at the first `"__"` of a separator-free first piece and splits the rest the same way |
| Strings.Suffix | dotman.py:159 | `suffix` is empty or a dotted ending of the name, shorter than the name (a leading dot alone is no suffix) |
| Strings.ParseDecOfDec | dotman.py:34 | the decimal counter in a backup name reads back as the same number |
| Strings.DecInjective | dotman.py:34 | distinct counters are written as distinct strings |
| Paths.Parent | dotman.py:298 | `parent` drops the last segment; the root is its own parent |
| Paths.PathOf | dotman.py:139 | `Path(*parts)` drops empty and `.` pieces, so no component of the result is empty or `.` |
| Paths.PathOfKeeps | dotman.py:212 | pieces that are neither empty nor `.` pass through `Path(*parts)` unchanged |
| Paths.WithSuffix | dotman.py:29 | `Path(str(path) + sfx)` is a sibling of `path` whose name is the old name followed by `sfx` |
| Paths.PathLessPrefix | dotman.py:155 | the order `sorted` uses on paths is kept when both paths get the same prefix |
| Names.MapTopLevelToHome | dotman.py:136-139 | the mapped home path has at most one component per `__` piece, none empty or `.`; `restore.py:122-127` is the same code |
| Names.MapTopLevelOnePerPiece | dotman.py:136-139 | when pathlib keeps every piece, the result is the first piece with a dot in front, followed by the remaining pieces |
| Names.MapScripts | restore.py:124 | `local__bin__scripts` maps to `.local/bin/scripts` |
| Names.MapTwoPieces | dotman.py:136-139 | a name `a__b` of two separator-free pieces maps to `.a/b` |
| Names.MapConfig | dotman.py:136-139 | `config__<app>` maps to `.config/<app>` |
| Names.MapPlain | dotman.py:136-139 | a name without `__` maps to itself with a dot in front |
| Names.RepoDestForHomePath | dotman.py:192-221 | the mapping succeeds exactly for a path strictly below home whose first component is hidden and is not a bare `.config`; every result lies in the repository; a hidden path under home fails only as a bare `.config` |
| Names.RepoDestConfig | dotman.py:207-212 | `~/.config/<app>/rest` goes to `config__<app>/rest` in the repository |
| Names.RepoDestScripts | dotman.py:214-216 | `~/.local/bin/scripts/rest` goes to `local__bin__scripts/rest` |
| Names.RepoDestPlain | dotman.py:218-221 | any other hidden `~/.top/rest` goes to `top/rest`, the dot stripped |
| Names.RepoDestShapes | dotman.py:206-221 | the three cases: `.config/app/rest` → `config__app/rest`; `.local/bin/scripts/rest` → `local__bin__scripts/rest`; `.top/rest` → `top/rest` |
| Names.RepoToHomeToRepo | dotman.py:192-221 | for a repository name that is `local__bin__scripts`, `config__<app>`, or a plain name other than `config` and not shadowing `.local/bin/scripts`, restoring and then stowing gives back the repository path |
| Names.HomeToRepoToHome | dotman.py:192-221 | stowing a hidden home path and mapping its top-level repository name back gives the home path again |
| Names.NestedNameNotRecovered | dotman.py:136-139 | the round trip does not hold in general: `foo__bar` restores to `.foo/bar`, which stows to `foo/bar` |
| Fs.IsSameFileSymmetric | dotman.py:49-68 | the identity test is symmetric, so the relinking branch of `run_stow` asks the question already answered |
| Fs.MkdirMakesDir | dotman.py:82 | after `mkdir(parents=True, exist_ok=True)` succeeds the path is a directory and no link changed |
| Fs.MkdirAddsDirs | dotman.py:82 | `mkdir -p` only adds directories and keeps the tree well formed |
| Fs.CreateKeepsValid | dotman.py:132 | `symlink` (and `mkdir`) keep the tree well formed |
| Fs.RmdirKeepsValid | dotman.py:121 | `rmdir` keeps the tree well formed |
| Fs.UnlinkKeepsValid | dotman.py:366 | `unlink` keeps the tree well formed |
| Fs.MoveKeepsValid | dotman.py:306 | moving a subtree to a free place in a directory keeps the tree well formed |
| Fs.RenameKeepsValid | dotman.py:92 | `rename` keeps the tree well formed |
| Fs.MoveTreeBack | dotman.py:369 | moving a subtree to a free place and back gives the original tree |
| Fs.FileSystem.MkdirParents | dotman.py:82 | the new tree and the error are those of the `mkdir -p` specification |
| Fs.FileSystem.SymlinkTo | dotman.py:132 | the result and new tree are those of the create specification: the link appears at the located place, which was free and inside a directory; on an error nothing changes |
| Fs.FileSystem.Rmdir | dotman.py:121 | the result and new tree are those of the `rmdir` specification: on success exactly the located entry is gone; on an error nothing changes |
| Fs.FileSystem.Unlink | dotman.py:366 | the result and new tree are those of the `unlink` specification: on success exactly the located entry is gone; on an error nothing changes |
| Fs.FileSystem.Rename | dotman.py:92 | the result and new tree are those of the rename specification, which moves the whole subtree; on an error nothing changes |
| Engine.BackupSuffixInjective | dotman.py:34 | two numbered backup names are the same only for the same number |
| Engine.CandidateOccupied | dotman.py:30 | a candidate exists or is a link exactly when its key is in the tree |
| Engine.SearchBound | dotman.py:32-37 | when candidates 1 .. i-1 are all taken, i is at most one more than the number of entries, so the `while True` loop ends |
| Engine.FreeIndexFrom | dotman.py:32-37 | the index found is free and every index before it is taken |
| Engine.BackupIndex | dotman.py:28-37 | the chosen candidate is free; it is the un-numbered one exactly when that is free; every earlier candidate is taken |
| Engine.UniqueBackupPath | dotman.py:28-37 | the candidate loop returns the free candidate the specification picks; `restore.py:27-36` is the same code |
| Engine.BackupBeside | dotman.py:29 | the backup sits in the same directory as the path and is a different name |
| Engine.MkdirpSpec | dotman.py:71-82 | the tree is unchanged for an existing directory or a dry run; a path that exists as something else is a `Blocked` error; otherwise `mkdir -p` runs; `restore.py:70-81` is the same code |
| Engine.MkdirpMakesDir | dotman.py:72-82 | when `_mkdirp` succeeds outside a dry run the path is a directory |
| Engine.Mkdirp | dotman.py:71-82 | the method's result and new tree are those of the specification |
| Engine.LinkSpec | dotman.py:96-133 | a dry run changes nothing and never fails with an OS error |
| Engine.SkipExactlyWhenLinked | dotman.py:101-105 | SKIP exactly when the target is the link or resolves to the same object as the source, and the tree is unchanged |
| Engine.ConflictExactlyWhenBlocked | dotman.py:107-124 | CONFLICT exactly when the target is occupied by something else, no force is given and (for `link_path`) it is no empty placeholder directory; nothing changes then |
| Engine.DryRunAgrees | dotman.py:117-129 | a dry run reports the outcome the real run would, except that the real run can meet an OS error |
| Engine.PlaceholderIsTheOnlyDifference | restore.py:101-103 | `link_file` and `link_path` agree except on an empty placeholder directory |
| Engine.FreeTargetLinked | dotman.py:127-133 | a free target under a plain directory becomes the link and nothing else changes |
| Engine.BackupRenames | dotman.py:85-93 | the backup name is free and renaming the target to it succeeds |
| Engine.LinkAfterMove | dotman.py:132 | once the target moved to a sibling, its place is free and the link is created |
| Engine.BackupThenLinkReplaces | dotman.py:125-133 | with force, the old entry moves to its backup and the target becomes the link |
| Engine.ForcedLinkReplaces | restore.py:105-119 | with force, an occupied target is renamed to a fresh backup beside it and replaced by the link |
| Engine.LinkAfterRmdir | dotman.py:117-121 | removing the empty placeholder directory frees its place for the link |
| Engine.PlaceholderReplaced | dotman.py:108-121 | `link_path` replaces an empty directory by a link to a directory source without force; `link_file` reports a conflict there |
| Engine.LinkedTargetSkipped | restore.py:93-95 | a target that already is the link is skipped and nothing changes |
| Engine.FreeTargetIdempotent | restore.py:207-209 | linking a free target twice: the second call returns SKIP and changes nothing |
| Engine.ForcedLinkIdempotent | restore.py:217-219 | after a forced replacement, linking again returns SKIP and changes nothing |
| Engine.Tally | dotman.py:177-179 | a counted outcome adds one to the total; only a conflict adds to the conflicts |
| Engine.RestorePair | dotman.py:174-180 | one pair: an outcome that is counted is never an OS error; a dry run changes nothing |
| Engine.RestoreFrom | dotman.py:173-189 | a finished run counts every pair once; the exit status is the one of its counts, 0 exactly when no pair was a conflict; when the first pair's `_mkdirp` is blocked or meets an OS error, or its link meets one, the run is aborted; a dry run changes nothing |
| Engine.RestoreConflictGoesOn | dotman.py:175-180 | a conflict on one pair is counted and the loop goes on with the remaining pairs; a run that then finishes exits 2; `restore.py:159-164` is the same code |
| Engine.RestoreDryRunFinishes | dotman.py:173-180 | a dry run goes through every pair exactly when no target's parent exists as something other than a directory |
| Engine.RestoreOverFileConflicts | restore.py:212-216 | restoring over a real file without force is a conflict that leaves the file and goes on, and a finished run exits 2 |
| Engine.RestoreCounts | restore.py:154-173 | a restore from zero counts: when it finishes, LINK + SKIP + CONFLICT equals the number of pairs and the exit status is 0 exactly when there is no conflict; a dry run changes nothing |
| Engine.RestoreAgainSkipsAll | restore.py:207-209 | when every target already links to its source, the rest of the run skips every pair and changes nothing |
| Engine.RestoreIdempotent | restore.py:207-209 | a restore over links already in place finishes with status 0, every pair skipped, and the tree unchanged |
| Listing.ItemPairsExactly | dotman.py:155-163 | the walk emits exactly the kept entries (no ignored component, no ignored suffix, no directory), each at the same relative path under the mapped base |
| Listing.ItemPairsSorted | dotman.py:155 | a sorted listing gives pairs in sorted source order |
| Listing.TopPairsUnder | dotman.py:143-167 | every pair of a top-level entry has its source at or below that entry |
| Listing.PairsUnder | restore.py:130-151 | every pair lies below one of the listed top-level entries |
| Listing.SortedConcat | dotman.py:143 | pairs of an earlier top-level entry all come before those of a later one |
| Listing.PairsSorted | dotman.py:142-167 | with sorted listings, all pairs come out in sorted source order |
| Listing.WalkTop | restore.py:139-147 | the loop over `sorted(top.rglob("*"))` emits the specified pairs in order |
| Dotman.BackupExisting | dotman.py:85-93 | returns the unique backup name and, outside a dry run, renames the path to it, as the backup specification says |
| Dotman.LinkPath | dotman.py:96-133 | result and new tree are those of the link specification with placeholder replacement |
| Dotman.IterRestoreLinks | dotman.py:142-167 | the pairs are those of the specification with whole-directory links for `config__<app>` |
| Dotman.RunRestore | dotman.py:170-189 | result and new tree are those of the restore specification over the listed pairs |
| Dotman.MoveAndLink | dotman.py:305-308 | the move and link of a stow never count as a failure: they succeed or raise |
| Dotman.StowPlace | dotman.py:277-308 | a path the loop reports as failed, or a dry run, leaves the tree unchanged |
| Dotman.StowStep | dotman.py:234-308 | a failed path (status 2) or a dry run leaves the tree unchanged |
| Dotman.StowFrom | dotman.py:232-310 | the status stays 0 or 2; it is 2 exactly when it was 2 before or some remaining path is refused before an exception stops the loop; a dry run changes nothing |
| Dotman.StowSpec | dotman.py:224-310 | unless an exception stops it, `run_stow` returns 2 exactly when some path was refused and 0 otherwise; a dry run changes nothing |
| Dotman.StowStepFailsExactly | dotman.py:240-290 | a stow step sets the status to 2 exactly for a missing path, a broken link, a link out of the repository, a path outside home, or a repository place taken by something else without force, and then leaves the tree unchanged |
| Dotman.MoveBack | dotman.py:365-369 | the unlink, `mkdir -p` and move of an unstow never count as a failure |
| Dotman.UnstowStep | dotman.py:322-369 | a failed path or a dry run leaves the tree unchanged |
| Dotman.UnstowFrom | dotman.py:321-371 | the status stays 0 or 2; it is 2 exactly when it was 2 before or some remaining path is refused before an exception stops the loop; a dry run changes nothing |
| Dotman.UnstowSpec | dotman.py:313-371 | unless an exception stops it, `run_unstow` returns 2 exactly when some path was refused and 0 otherwise; a dry run changes nothing |
| Dotman.UnstowStepFailsExactly | dotman.py:328-349 | an unstow step sets the status to 2 exactly for a path that is not a link, a broken link, or a link out of the repository, and then leaves the tree unchanged |
| Dotman.StowOne | dotman.py:233-308 | the loop body's outcome and new tree are those of the stow step |
| Dotman.RunStow | dotman.py:224-310 | result and new tree are those of the stow specification |
| Dotman.UnstowOne | dotman.py:322-369 | the loop body's outcome and new tree are those of the unstow step |
| Dotman.RunUnstow | dotman.py:313-371 | result and new tree are those of the unstow specification |
| Dotman.StowRelinkUnreachable | dotman.py:281-290 | the relinking branch never runs: when the earlier check failed, the reversed identity test fails too |
| Dotman.StowTouchesOnlyHomeEntries | dotman.py:240-275 | a stow changes the tree only outside a dry run, for an existing path under home that is not a link and has a repository place |
| Dotman.StowedIsNoop | dotman.py:245-264 | a link that resolves into the repository is left alone and counts as success |
| Dotman.UnstowTouchesOnlyRepoLinks | dotman.py:328-355 | an unstow changes the tree only outside a dry run, for a link that resolves to an existing entry in the repository |
| Dotman.UnstowBackupUnreachable | dotman.py:357-363 | the backup branch of `run_unstow` is never taken, so `force` and the stamp do not matter |
| Dotman.UnstowMkdirIsNoop | dotman.py:365-367 | below a plain directory the unlink succeeds and the following `_mkdirp(p.parent)` changes nothing |
| Dotman.StowableInValid | dotman.py:298-308 | in a well-formed tree a free destination under a plain directory has nothing below it, so it can receive the move |
| Dotman.MovedKeys | dotman.py:306 | after the move the source place is free and the destination holds the source's entry |
| Dotman.MovedParents | dotman.py:306 | after the move both parents are still plain directories |
| Dotman.StowedLinkResolves | dotman.py:308 | after a stow the home path is a link that resolves to the repository copy |
| Dotman.MoveAndLinkStows | dotman.py:305-308 | the move and the link both succeed and give the stowed tree |
| Dotman.StowGuardPasses | dotman.py:240-271 | a home path that exists with no link anywhere on its way passes every check before the mapping |
| Dotman.StowPlaceMoves | dotman.py:277-308 | a stowable path is moved to its destination and linked back |
| Dotman.StowMovesIntoRepo | dotman.py:266-308 | stowing a stowable home path moves it to its mapped repository place and leaves a link to it, with status success |
| Dotman.StowIdempotent | dotman.py:253-264 | stowing the same path again is a no-op that counts as success |
| Dotman.MoveBackRestores | dotman.py:365-369 | the move back of an unstow undoes the move and the link of a stow |
| Dotman.UnstowUndoesStow | dotman.py:328-369 | unstowing a stowed path gives back exactly the tree before the stow, with status success |
| Dotman.StowUnstowRoundTrip | dotman.py:413-426 | `stow` then `unstow` of a stowable home path whose repository directory exists both succeed and the tree is the one before |
| Dotman.FreeBeforeMkdir | dotman.py:281-298 | a repository place that is free once its parent is made was free before, so the stow goes past the conflict checks |
| Dotman.StowUnstowMakesParent | dotman.py:397-411 | when the repository directory is missing, the stow makes it, moves the path and links it back; the unstow then gives back the tree with that directory made |
| Restore.LinkFile | restore.py:84-119 | result and new tree are those of the link specification without placeholder replacement |
| Restore.IterLinks | restore.py:130-151 | the pairs are those of the specification that walks every directory, `config__<app>` included |
| Restore.RunRestore | restore.py:154-173 | result and new tree are those of the restore specification over those pairs |

## Left out

- `main`, argument parsing, logging, and the `_self_test` functions. The self-test scenarios appear only as the lemmas cited above.
- `_now_stamp` reads the clock. The stamp is a parameter, one per run; Python reads the clock again for every backup.
- `expanduser`, `os.path.abspath` and `Path.cwd()`: every input path is taken as already absolute and normalised.
- Relative symlink targets are not modelled: every link target is absolute.
- A symlink loop makes `resolve` raise `RuntimeError` in Python. In the model resolution gives no result, the identity tests are false, and stow and unstow treat the path as broken.
- A chain of more than 40 nested links that does not loop is resolved by Python's non-strict `resolve`; the model gives no result for it, as for a loop.
- `target_is_directory` of `symlink_to` is not modelled: it has no effect on POSIX systems.
- `shutil.move` is modelled as a same-filesystem rename of the whole subtree. The copy fallback across devices is not modelled.
- `rename` onto an existing entry is an error in the model. Every call in the source targets a free name, and the lemmas show that.
- A `mkdir -p` that fails is modelled as leaving the tree unchanged. The directories it created before failing are not modelled.
- `iterdir` and `rglob` are not modelled: the sorted directory listings are inputs (`Listing.Top`, `Listing.Item`), and sorting itself is not modelled.
- The generators `iter_restore_links` and `iter_links` are collected into a sequence before the loop runs. Laziness is not modelled.
- A listing taken before the loop goes stale while the loop changes the tree. That is not modelled either.
- Concurrency and other processes changing the filesystem are not modelled.
- Permission errors are not modelled: every system call fails only for the reasons listed in `Fs.OsError`.
- Engine.RestoreIdempotent: proved only when every target already links to its source. Idempotence of a whole run does not hold in general, because two repository names can map to the same home path (`a__b` and the directory `a` holding `b`).
- Dotman.StowMovesIntoRepo: requires the repository directory that receives the path to exist already. The case where `_mkdirp(dst.parent)` creates it is `Dotman.StowUnstowMakesParent`, which assumes that the tree with the directory made is stowable.
- Dotman.StowUnstowRoundTrip: has the same precondition as `Dotman.StowMovesIntoRepo`. When the directory is missing, unstow leaves the directories made by stow, so the round trip gives the tree with them made (`Dotman.StowUnstowMakesParent`).
- Paths.WithSuffix: the stamp is any string. `_now_stamp` formats `%Y%m%d-%H%M%S`, which holds no `/`, so gluing the suffix onto the last name matches `Path(str(p) + suffix)`; a stamp with a `/` would not be modelled faithfully.
- Dotman.UnstowOne: the method omits the dead backup branch at `dotman.py:357-363`. `Dotman.UnstowStep` keeps it, and `Dotman.UnstowBackupUnreachable` proves that it is never taken.
