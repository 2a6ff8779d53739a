/** The `dotman.py` commands: `restore` (link every repository entry into
    the home directory), `stow` (move home paths into the repository and
    link them back) and `unstow` (undo a stow), each proved against a
    specification function of the tree it leaves. */
module Dotman {
  import opened Strings
  import opened Paths
  import opened Results
  import opened Fs
  import opened Names
  import opened Listing
  import opened Engine

  // ---------------------------------------------------------------
  // Backups and links
  // ---------------------------------------------------------------

  /** `_backup_existing`: picks the unique backup name and, unless
      dry-run, renames the path to it. */
  method BackupExisting(fs: FileSystem, p: Path, stamp: string, dryRun: bool) returns (r: Result<Path, OsError>)
    modifies fs
    ensures r.Ok? <==> BackupSpec(old(fs.tree), p, stamp, dryRun).Ok?
    ensures r.Ok? ==> r.value == UniqueBackup(old(fs.tree), p, stamp)
    ensures r.Ok? ==> fs.tree == BackupSpec(old(fs.tree), p, stamp, dryRun).value
    ensures r.Err? ==> r.error == BackupSpec(old(fs.tree), p, stamp, dryRun).error && fs.tree == old(fs.tree)
  {
    var b := UniqueBackupPath(fs, p, stamp);
    if dryRun {
      return Ok(b);
    }
    var moved := fs.Rename(p, b);
    if moved.Err? {
      return Err(moved.error);
    }
    return Ok(b);
  }

  /** `link_path`: makes `target` a link to `source`, replacing an empty
      placeholder directory, and with force backing up whatever else is
      there; `Conflict` stands for the ConflictError it raises. */
  method LinkPath(fs: FileSystem, target: Path, source: Path, dryRun: bool, force: bool, stamp: string)
    returns (o: Outcome)
    modifies fs
    ensures (o, fs.tree) == LinkSpec(old(fs.tree), target, source, dryRun, force, stamp, true)
  {
    if AlreadyLinked(fs.tree, target, source) {
      return Skipped;
    }
    if Occupied(fs.tree, target) {
      if Placeholder(fs.tree, target, source) {
        if !dryRun {
          var r := fs.Rmdir(target);
          if r.Err? {
            return Failed(r.error);
          }
        }
      } else {
        if !force {
          return Conflict;
        }
        var b := BackupExisting(fs, target, stamp, dryRun);
        if b.Err? {
          return Failed(b.error);
        }
      }
    }
    if dryRun {
      return Linked;
    }
    var r := fs.SymlinkTo(target, source);
    if r.Err? {
      return Failed(r.error);
    }
    return Linked;
  }

  // ---------------------------------------------------------------
  // restore
  // ---------------------------------------------------------------

  /** `iter_restore_links`, with the generator's pairs collected in order:
      a `config__<app>` directory is linked whole, any other directory
      file by file. */
  method IterRestoreLinks(root: Path, home: Path, tops: seq<Top>) returns (pairs: seq<Pair>)
    ensures pairs == Pairs(root, home, tops, true)
  {
    pairs := [];
    for i := 0 to |tops|
      invariant pairs == Pairs(root, home, tops[..i], true)
    {
      var top := tops[i];
      assert tops[..i + 1][..i] == tops[..i];
      if top.name in IgnoreDirs {
        continue;
      }
      var base := home + MapTopLevelToHome(top.name);
      if top.isDir {
        if StartsWith(top.name, "config__") {
          pairs := pairs + [Pair(root + [top.name], base)];
          continue;
        }
        var ps := WalkTop(root + [top.name], base, top.items);
        pairs := pairs + ps;
      } else {
        if Suffix(top.name) in IgnoreSuffixes {
          continue;
        }
        pairs := pairs + [Pair(root + [top.name], base)];
      }
    }
    assert tops[..|tops|] == tops;
  }

  /** `run_restore`: for each pair, makes the target's parent and links;
      a conflict is counted and the loop goes on, any other error stops it. */
  method RunRestore(fs: FileSystem, home: Path, root: Path, tops: seq<Top>, dryRun: bool, force: bool,
                    stamp: string) returns (r: RunResult)
    modifies fs
    ensures (r, fs.tree) == RestoreSpec(old(fs.tree), Pairs(root, home, tops, true), dryRun, force, stamp, true)
  {
    var pairs := IterRestoreLinks(root, home, tops);
    var counts := Counts(0, 0, 0);
    assert pairs[0..] == pairs;
    for i := 0 to |pairs|
      invariant RestoreFrom(fs.tree, pairs[i..], dryRun, force, stamp, true, counts)
                == RestoreSpec(old(fs.tree), pairs, dryRun, force, stamp, true)
    {
      var made := Mkdirp(fs, Parent(pairs[i].target), dryRun);
      if made.Err? {
        return Aborted(made.error);
      }
      var o := LinkPath(fs, pairs[i].target, pairs[i].source, dryRun, force, stamp);
      if o.Failed? {
        return Aborted(Os(o.error));
      }
      counts := Tally(counts, o);
    }
    return Finished(ExitCode(counts), counts);
  }

  // ---------------------------------------------------------------
  // stow and unstow, one path at a time
  // ---------------------------------------------------------------

  /** What one path of a `stow` or `unstow` run leads to: the loop goes
      on, with `failed` when it set the exit status to 2, or an exception
      stops the run. */
  datatype Step = Next(failed: bool) | Stop(fault: Fault)

  /** The checks `run_stow` makes before mapping the path: Some(failed)
      when they end this path's turn, None when it is to be stowed. A
      symbolic link into the repository is already stowed. */
  function StowGuard(t: Tree, src: Path, home: Path, root: Path): Option<bool>
  {
    if !Occupied(t, src) then Some(true)
    else if IsSymlink(t, src) then
      if !Exists(t, src) then Some(true)
      else Some(!IsPrefix(root, Resolve(t, src).value))
    else if !IsPrefix(home, src) then Some(true)
    else None
  }

  /** The move of a stow: `shutil.move(src, dst)`, then `src` becomes a
      link to `dst`. */
  function MoveAndLink(t: Tree, src: Path, dst: Path): (r: (Step, Tree))
    ensures r.0 != Next(true)
  {
    match RenameSpec(t, src, dst)
    case Err(e) => (Stop(Os(e)), t)
    case Ok(t1) =>
      match CreateSpec(t1, src, Symlink(dst))
      case Err(e) => (Stop(Os(e)), t1)
      case Ok(t2) => (Next(false), t2)
  }

  /** The stow of a mapped path `src` to its repository place `dst`:
      skip when it already is the place; the relinking branch for a `dst`
      that is the same file; a conflict without force; else the backup,
      the parent directory, and unless dry-run the move and the link. */
  function StowPlace(t: Tree, src: Path, dst: Path, dryRun: bool, force: bool, stamp: string): (r: (Step, Tree))
    ensures r.0 == Next(true) ==> r.1 == t
    ensures dryRun ==> r.1 == t
  {
    if AlreadyLinked(t, src, dst) then (Next(false), t)
    else if Occupied(t, dst) && IsSameFile(t, dst, src) then
      var (o, u) := LinkSpec(t, src, dst, dryRun, force, stamp, true);
      if o.Failed? then (Stop(Os(o.error)), u)
      else
        ConflictExactlyWhenBlocked(t, src, dst, dryRun, force, stamp, true);
        (Next(o == Conflict), u)
    else if Occupied(t, dst) && !force then (Next(true), t)
    else
      match (if Occupied(t, dst) then BackupSpec(t, dst, stamp, dryRun) else Ok(t))
      case Err(e) => (Stop(Os(e)), t)
      case Ok(t1) =>
        match MkdirpSpec(t1, Parent(dst), dryRun)
        case Err(f) => (Stop(f), t1)
        case Ok(t2) => if dryRun then (Next(false), t2) else MoveAndLink(t2, src, dst)
  }

  /** One path of `run_stow` (`src` absolute and normalised); a path that
      cannot be mapped raises ValueError, which stops the run. */
  function StowStep(t: Tree, src: Path, home: Path, root: Path, dryRun: bool, force: bool, stamp: string)
    : (r: (Step, Tree))
    ensures r.0 == Next(true) ==> r.1 == t
    ensures dryRun ==> r.1 == t
  {
    match StowGuard(t, src, home, root)
    case Some(failed) => (Next(failed), t)
    case None =>
      match RepoDestForHomePath(src, home, root)
      case Err(e) => (Stop(Unmappable(e)), t)
      case Ok(dst) => StowPlace(t, src, dst, dryRun, force, stamp)
  }

  /** The move back of an unstow: unlink `p`, make its parent, move the
      link's target to `p`. */
  function MoveBack(t: Tree, p: Path, target: Path): (r: (Step, Tree))
    ensures r.0 != Next(true)
  {
    match UnlinkSpec(t, p)
    case Err(e) => (Stop(Os(e)), t)
    case Ok(t1) =>
      match MkdirpSpec(t1, Parent(p), false)
      case Err(f) => (Stop(f), t1)
      case Ok(t2) =>
        match RenameSpec(t2, target, p)
        case Err(e) => (Stop(Os(e)), t2)
        case Ok(t3) => (Next(false), t3)
  }

  /** One path of `run_unstow`: it must be a link that resolves into the
      repository. The backup branch for a `p` that is not a link is
      kept as the source has it, though it is never taken. */
  function UnstowStep(t: Tree, p: Path, root: Path, dryRun: bool, force: bool, stamp: string): (r: (Step, Tree))
    ensures r.0 == Next(true) ==> r.1 == t
    ensures dryRun ==> r.1 == t
  {
    if !IsSymlink(t, p) then (Next(true), t)
    else if !Exists(t, p) then (Next(true), t)
    else
      var target := Resolve(t, p).value;
      if !IsPrefix(root, target) then (Next(true), t)
      else if dryRun then (Next(false), t)
      else if Exists(t, p) && !IsSymlink(t, p) && !force then (Next(true), t)
      else
        match (if Exists(t, p) && !IsSymlink(t, p) then BackupSpec(t, p, stamp, false) else Ok(t))
        case Err(e) => (Stop(Os(e)), t)
        case Ok(t0) => MoveBack(t0, p, target)
  }

  // ---------------------------------------------------------------
  // stow and unstow runs
  // ---------------------------------------------------------------

  /** When `run_stow` logs an error for `src` and sets the exit status to
      2: a missing path, a broken link, a link out of the repository, a
      path outside the home directory, or a repository place taken by
      something else without force. */
  predicate StowRefuses(t: Tree, src: Path, home: Path, root: Path, force: bool)
  {
    || !Occupied(t, src)
    || (IsSymlink(t, src) && !Exists(t, src))
    || (IsSymlink(t, src) && Exists(t, src) && !IsPrefix(root, Resolve(t, src).value))
    || (!IsSymlink(t, src) && !IsPrefix(home, src))
    || (&& !IsSymlink(t, src) && IsPrefix(home, src) && RepoDestForHomePath(src, home, root).Ok?
        && !AlreadyLinked(t, src, RepoDestForHomePath(src, home, root).value)
        && Occupied(t, RepoDestForHomePath(src, home, root).value) && !force)
  }

  /** When `run_unstow` logs an error for `p` and sets the exit status to
      2: not a link, a broken link, or a link out of the repository. */
  predicate UnstowRefuses(t: Tree, p: Path, root: Path)
  {
    !IsSymlink(t, p) || !Exists(t, p) || !IsPrefix(root, Resolve(t, p).value)
  }

  /** A stow step fails exactly when the path is refused, and a refused
      path leaves the tree as it was. */
  lemma StowStepFailsExactly(t: Tree, src: Path, home: Path, root: Path, dryRun: bool, force: bool,
                             stamp: string)
    ensures StowStep(t, src, home, root, dryRun, force, stamp).0 == Next(true)
            <==> StowRefuses(t, src, home, root, force)
    ensures StowRefuses(t, src, home, root, force)
            ==> StowStep(t, src, home, root, dryRun, force, stamp) == (Next(true), t)
  {
    var m := RepoDestForHomePath(src, home, root);
    if StowGuard(t, src, home, root).None? && m.Ok? {
      StowRelinkUnreachable(t, src, m.value);
    }
  }

  /** An unstow step fails exactly when the path is refused, and a
      refused path leaves the tree as it was. */
  lemma UnstowStepFailsExactly(t: Tree, p: Path, root: Path, dryRun: bool, force: bool, stamp: string)
    ensures UnstowStep(t, p, root, dryRun, force, stamp).0 == Next(true) <==> UnstowRefuses(t, p, root)
    ensures UnstowRefuses(t, p, root) ==> UnstowStep(t, p, root, dryRun, force, stamp) == (Next(true), t)
  {
  }

  /** Some path of the rest of a `run_stow` loop is refused before an
      exception stops the run. */
  predicate StowFails(t: Tree, paths: seq<Path>, home: Path, root: Path, dryRun: bool, force: bool,
                      stamp: string)
    decreases |paths|
  {
    && paths != []
    && (|| StowRefuses(t, paths[0], home, root, force)
        || (var (s, u) := StowStep(t, paths[0], home, root, dryRun, force, stamp);
            s.Next? && StowFails(u, paths[1..], home, root, dryRun, force, stamp)))
  }

  /** Some path of the rest of a `run_unstow` loop is refused before an
      exception stops the run. */
  predicate UnstowFails(t: Tree, paths: seq<Path>, root: Path, dryRun: bool, force: bool, stamp: string)
    decreases |paths|
  {
    && paths != []
    && (|| UnstowRefuses(t, paths[0], root)
        || (var (s, u) := UnstowStep(t, paths[0], root, dryRun, force, stamp);
            s.Next? && UnstowFails(u, paths[1..], root, dryRun, force, stamp)))
  }

  /** The rest of a `run_stow` loop, from exit status `rc` on. */
  function StowFrom(t: Tree, paths: seq<Path>, home: Path, root: Path, dryRun: bool, force: bool,
                    stamp: string, rc: int): (r: (Result<int, Fault>, Tree))
    ensures rc == 0 || rc == 2 ==> r.0.Ok? ==> r.0.value == 0 || r.0.value == 2
    ensures r.0.Ok? && r.0.value == 0 ==> rc == 0
    ensures r.0.Ok? ==> (r.0.value == 2 <==> rc == 2 || StowFails(t, paths, home, root, dryRun, force, stamp))
    ensures dryRun ==> r.1 == t
    decreases |paths|
  {
    if paths == [] then (Ok(rc), t)
    else
      StowStepFailsExactly(t, paths[0], home, root, dryRun, force, stamp);
      match StowStep(t, paths[0], home, root, dryRun, force, stamp)
      case (Stop(f), u) => (Err(f), u)
      case (Next(failed), u) => StowFrom(u, paths[1..], home, root, dryRun, force, stamp, if failed then 2 else rc)
  }

  /** `run_stow` on the given paths: an exit status of 2 exactly when some
      path was refused and 0 otherwise, or the exception that stopped it;
      a dry run changes nothing. */
  function StowSpec(t: Tree, paths: seq<Path>, home: Path, root: Path, dryRun: bool, force: bool,
                    stamp: string): (r: (Result<int, Fault>, Tree))
    ensures r.0.Ok? ==> r.0.value == 0 || r.0.value == 2
    ensures r.0.Ok? ==> (r.0.value == 2 <==> StowFails(t, paths, home, root, dryRun, force, stamp))
    ensures dryRun ==> r.1 == t
  {
    var zero := 0;
    StowFrom(t, paths, home, root, dryRun, force, stamp, zero)
  }

  /** The rest of a `run_unstow` loop, from exit status `rc` on. */
  function UnstowFrom(t: Tree, paths: seq<Path>, root: Path, dryRun: bool, force: bool,
                      stamp: string, rc: int): (r: (Result<int, Fault>, Tree))
    ensures rc == 0 || rc == 2 ==> r.0.Ok? ==> r.0.value == 0 || r.0.value == 2
    ensures r.0.Ok? && r.0.value == 0 ==> rc == 0
    ensures r.0.Ok? ==> (r.0.value == 2 <==> rc == 2 || UnstowFails(t, paths, root, dryRun, force, stamp))
    ensures dryRun ==> r.1 == t
    decreases |paths|
  {
    if paths == [] then (Ok(rc), t)
    else
      UnstowStepFailsExactly(t, paths[0], root, dryRun, force, stamp);
      match UnstowStep(t, paths[0], root, dryRun, force, stamp)
      case (Stop(f), u) => (Err(f), u)
      case (Next(failed), u) => UnstowFrom(u, paths[1..], root, dryRun, force, stamp, if failed then 2 else rc)
  }

  /** `run_unstow` on the given paths: an exit status of 2 exactly when
      some path was refused and 0 otherwise. */
  function UnstowSpec(t: Tree, paths: seq<Path>, root: Path, dryRun: bool, force: bool,
                      stamp: string): (r: (Result<int, Fault>, Tree))
    ensures r.0.Ok? ==> r.0.value == 0 || r.0.value == 2
    ensures r.0.Ok? ==> (r.0.value == 2 <==> UnstowFails(t, paths, root, dryRun, force, stamp))
    ensures dryRun ==> r.1 == t
  {
    var zero := 0;
    UnstowFrom(t, paths, root, dryRun, force, stamp, zero)
  }

  // ---------------------------------------------------------------
  // The stow and unstow loops
  // ---------------------------------------------------------------

  /** The body of the `run_stow` loop for one path. */
  method StowOne(fs: FileSystem, src: Path, home: Path, root: Path, dryRun: bool, force: bool, stamp: string)
    returns (s: Step)
    modifies fs
    ensures (s, fs.tree) == StowStep(old(fs.tree), src, home, root, dryRun, force, stamp)
  {
    if !Occupied(fs.tree, src) {
      return Next(true);
    }
    if IsSymlink(fs.tree, src) {
      if !Exists(fs.tree, src) {
        return Next(true);
      }
      var target := Resolve(fs.tree, src).value;
      if !IsPrefix(root, target) {
        return Next(true);
      }
      return Next(false);
    }
    if !IsPrefix(home, src) {
      return Next(true);
    }
    var mapped := RepoDestForHomePath(src, home, root);
    if mapped.Err? {
      return Stop(Unmappable(mapped.error));
    }
    var dst := mapped.value;
    if AlreadyLinked(fs.tree, src, dst) {
      return Next(false);
    }
    if Occupied(fs.tree, dst) {
      if IsSameFile(fs.tree, dst, src) {
        var o := LinkPath(fs, src, dst, dryRun, force, stamp);
        if o.Failed? {
          return Stop(Os(o.error));
        }
        return Next(o == Conflict);
      }
      if !force {
        return Next(true);
      }
      var b := BackupExisting(fs, dst, stamp, dryRun);
      if b.Err? {
        return Stop(Os(b.error));
      }
    }
    var made := Mkdirp(fs, Parent(dst), dryRun);
    if made.Err? {
      return Stop(made.error);
    }
    if dryRun {
      return Next(false);
    }
    var moved := fs.Rename(src, dst);
    if moved.Err? {
      return Stop(Os(moved.error));
    }
    var linked := fs.SymlinkTo(src, dst);
    if linked.Err? {
      return Stop(Os(linked.error));
    }
    return Next(false);
  }

  /** `run_stow`: every path in turn; the status becomes 2 at the first
      failure and stays so. */
  method RunStow(fs: FileSystem, paths: seq<Path>, home: Path, root: Path, dryRun: bool, force: bool,
                 stamp: string) returns (r: Result<int, Fault>)
    modifies fs
    ensures (r, fs.tree) == StowSpec(old(fs.tree), paths, home, root, dryRun, force, stamp)
  {
    var rc := 0;
    assert paths[0..] == paths;
    for i := 0 to |paths|
      invariant StowFrom(fs.tree, paths[i..], home, root, dryRun, force, stamp, rc)
                == StowSpec(old(fs.tree), paths, home, root, dryRun, force, stamp)
    {
      assert paths[i..][1..] == paths[i + 1..];
      var s := StowOne(fs, paths[i], home, root, dryRun, force, stamp);
      if s.Stop? {
        return Err(s.fault);
      }
      if s.failed {
        rc := 2;
      }
    }
    return Ok(rc);
  }

  /** The body of the `run_unstow` loop for one path. The backup branch
      for a `p` that is not a link is left out here: `p` is a link at that
      point (`UnstowBackupUnreachable`), and `UnstowStep` keeps it. */
  method UnstowOne(fs: FileSystem, p: Path, root: Path, dryRun: bool, force: bool, stamp: string)
    returns (s: Step)
    modifies fs
    ensures (s, fs.tree) == UnstowStep(old(fs.tree), p, root, dryRun, force, stamp)
  {
    if !IsSymlink(fs.tree, p) {
      return Next(true);
    }
    if !Exists(fs.tree, p) {
      return Next(true);
    }
    var target := Resolve(fs.tree, p).value;
    if !IsPrefix(root, target) {
      return Next(true);
    }
    if dryRun {
      return Next(false);
    }
    var unlinked := fs.Unlink(p);
    if unlinked.Err? {
      return Stop(Os(unlinked.error));
    }
    var made := Mkdirp(fs, Parent(p), false);
    if made.Err? {
      return Stop(made.error);
    }
    var moved := fs.Rename(target, p);
    if moved.Err? {
      return Stop(Os(moved.error));
    }
    return Next(false);
  }

  /** `run_unstow`: every path in turn. */
  method RunUnstow(fs: FileSystem, paths: seq<Path>, root: Path, dryRun: bool, force: bool,
                   stamp: string) returns (r: Result<int, Fault>)
    modifies fs
    ensures (r, fs.tree) == UnstowSpec(old(fs.tree), paths, root, dryRun, force, stamp)
  {
    var rc := 0;
    assert paths[0..] == paths;
    for i := 0 to |paths|
      invariant UnstowFrom(fs.tree, paths[i..], root, dryRun, force, stamp, rc)
                == UnstowSpec(old(fs.tree), paths, root, dryRun, force, stamp)
    {
      assert paths[i..][1..] == paths[i + 1..];
      var s := UnstowOne(fs, paths[i], root, dryRun, force, stamp);
      if s.Stop? {
        return Err(s.fault);
      }
      if s.failed {
        rc := 2;
      }
    }
    return Ok(rc);
  }

  // ---------------------------------------------------------------
  // What stow and unstow guarantee
  // ---------------------------------------------------------------

  /** The relinking branch of `run_stow` is never taken: when `src` is not
      already the same file as `dst`, `dst` is not the same file as `src`. */
  lemma StowRelinkUnreachable(t: Tree, src: Path, dst: Path)
    ensures !AlreadyLinked(t, src, dst) ==> !(Occupied(t, dst) && IsSameFile(t, dst, src))
  {
    IsSameFileSymmetric(t, src, dst);
  }

  /** A stow changes the tree only for an existing path under the home
      directory that is not a link and has a repository place, and only
      when it is not a dry run. */
  lemma StowTouchesOnlyHomeEntries(t: Tree, src: Path, home: Path, root: Path, dryRun: bool, force: bool,
                                   stamp: string)
    ensures StowStep(t, src, home, root, dryRun, force, stamp).1 != t ==>
      && Exists(t, src) && !IsSymlink(t, src) && IsPrefix(home, src)
      && RepoDestForHomePath(src, home, root).Ok? && !dryRun
  {
  }

  /** A path that is already a link into the repository is left alone
      and does not count as a failure. */
  lemma StowedIsNoop(t: Tree, src: Path, home: Path, root: Path, dryRun: bool, force: bool, stamp: string)
    requires IsSymlink(t, src) && Exists(t, src) && IsPrefix(root, Resolve(t, src).value)
    ensures StowStep(t, src, home, root, dryRun, force, stamp) == (Next(false), t)
  {
  }

  /** An unstow changes the tree only for a link that resolves into the
      repository, and only when it is not a dry run. */
  lemma UnstowTouchesOnlyRepoLinks(t: Tree, p: Path, root: Path, dryRun: bool, force: bool, stamp: string)
    ensures UnstowStep(t, p, root, dryRun, force, stamp).1 != t ==>
      IsSymlink(t, p) && Exists(t, p) && IsPrefix(root, Resolve(t, p).value) && !dryRun
  {
  }

  /** The backup branch of `run_unstow` is never taken, so neither force
      nor the time stamp changes what an unstow does. */
  lemma UnstowBackupUnreachable(t: Tree, p: Path, root: Path, dryRun: bool, force: bool, stamp: string,
                                stamp': string)
    ensures UnstowStep(t, p, root, dryRun, force, stamp) == UnstowStep(t, p, root, dryRun, !force, stamp')
  {
  }

  /** Below a plain directory, the `_mkdirp(p.parent)` of an unstow, after
      the link is removed, has nothing to do. */
  lemma UnstowMkdirIsNoop(t: Tree, p: Path)
    requires Valid(t) && p != [] && Plain(t, Parent(p)) && IsSymlink(t, p)
    ensures UnlinkSpec(t, p) == Ok(t - {p})
    ensures MkdirpSpec(t - {p}, Parent(p), false) == Ok(t - {p})
  {
    LocatePlainParent(t, p);
    var u := t - {p};
    PlainTransfer(t, u, Parent(p));
    ResolvePlain(u, Parent(p));
    assert IsDir(u, Parent(p));
  }

  /** `src` can be stowed to `dst` with every step succeeding: a plain
      entry (no link on the way to it or at it) in a directory, a free
      `dst` with nothing below it, in a plain existing directory, neither
      inside the other. */
  predicate Stowable(t: Tree, src: Path, dst: Path)
  {
    && src != [] && src in t && Plain(t, src) && DirAt(t, Parent(src))
    && dst !in t && Plain(t, Parent(dst)) && DirAt(t, Parent(dst))
    && (forall k :: k in t ==> !IsPrefix(dst, k))
    && !IsPrefix(src, dst) && !IsPrefix(dst, src)
  }

  /** In a well-formed tree, a free place has nothing below it, and an
      entry's parent is a directory. */
  lemma StowableInValid(t: Tree, src: Path, dst: Path)
    requires Valid(t) && src != [] && Plain(t, src)
    requires dst != [] && dst !in t && Plain(t, Parent(dst)) && DirAt(t, Parent(dst))
    requires !IsPrefix(src, dst) && !IsPrefix(dst, src)
    ensures Stowable(t, src, dst)
  {
    assert src[..|src|] == src;
    forall k | k in t ensures !IsPrefix(dst, k) {
      NothingUnderAbsent(t, dst, k);
    }
  }

  /** The tree once `src` is stowed to `dst`: the subtree moved, and a
      link in its old place. */
  function Stowed(t: Tree, src: Path, dst: Path): Tree
  {
    MoveTree(t, src, dst)[src := Symlink(dst)]
  }

  /** After the move, `src` is free and `dst` holds its entry. */
  lemma MovedKeys(t: Tree, src: Path, dst: Path)
    requires Stowable(t, src, dst)
    ensures src !in MoveTree(t, src, dst)
    ensures dst in MoveTree(t, src, dst) && MoveTree(t, src, dst)[dst] == t[src]
  {
    if src in MoveTree(t, src, dst) {
      MoveTreeKeys(t, src, dst, src);
    }
    assert src[..|src|] == src;
    MoveTreeMoves(t, src, dst, src);
    assert Moved(src, dst, src) == dst;
  }

  /** After the move, both parents are still plain directories. */
  lemma MovedParents(t: Tree, src: Path, dst: Path)
    requires Stowable(t, src, dst)
    ensures Plain(MoveTree(t, src, dst), Parent(src)) && DirAt(MoveTree(t, src, dst), Parent(src))
    ensures Plain(MoveTree(t, src, dst), Parent(dst)) && DirAt(MoveTree(t, src, dst), Parent(dst))
  {
    PlainParent(t, src);
    PrefixTransitive(dst, Parent(src), src);
    PlainMoved(t, src, dst, Parent(src));
    PrefixTransitive(src, Parent(dst), dst);
    PlainMoved(t, src, dst, Parent(dst));
    if Parent(src) != [] {
      MoveTreeKeeps(t, src, dst, Parent(src));
    }
    if Parent(dst) != [] {
      MoveTreeKeeps(t, src, dst, Parent(dst));
    }
  }

  /** After a stow, `src` is a link that resolves to `dst`, which exists. */
  lemma StowedLinkResolves(t: Tree, src: Path, dst: Path)
    requires Stowable(t, src, dst)
    ensures IsSymlink(Stowed(t, src, dst), src)
    ensures Resolve(Stowed(t, src, dst), src) == Some(dst)
    ensures Exists(Stowed(t, src, dst), src)
  {
    var u := MoveTree(t, src, dst);
    var w := Stowed(t, src, dst);
    MovedKeys(t, src, dst);
    MovedParents(t, src, dst);
    PlainUpdated(u, src, Symlink(dst), Parent(src));
    PrefixTransitive(src, Parent(dst), dst);
    PlainUpdated(u, src, Symlink(dst), Parent(dst));
    assert src[..|src|] == src;
    PlainExtend(w, dst);
    LocatePlainParent(w, src);
    ResolveByLocate(w, src);
    assert [] + dst == dst;
    WalkPlain(w, [], dst, MaxDepth - 1);
  }

  /** The move and link of a stow succeed and leave the stowed tree. */
  lemma MoveAndLinkStows(t: Tree, src: Path, dst: Path)
    requires Stowable(t, src, dst)
    ensures MoveAndLink(t, src, dst) == (Next(false), Stowed(t, src, dst))
  {
    PlainParent(t, src);
    LocatePlainParent(t, src);
    LocatePlainParent(t, dst);
    assert RenameSpec(t, src, dst) == Ok(MoveTree(t, src, dst));
    MovedKeys(t, src, dst);
    MovedParents(t, src, dst);
    LocatePlainParent(MoveTree(t, src, dst), src);
  }

  /** A plain home path passes the checks before mapping. */
  lemma StowGuardPasses(t: Tree, src: Path, home: Path, root: Path)
    requires src != [] && Plain(t, src) && IsPrefix(home, src)
    ensures StowGuard(t, src, home, root) == None
  {
    assert src[..|src|] == src;
    ResolvePlain(t, src);
  }

  /** Placing a stowable path moves it and links it back. */
  lemma StowPlaceMoves(t: Tree, src: Path, dst: Path, force: bool, stamp: string)
    requires Stowable(t, src, dst)
    ensures StowPlace(t, src, dst, false, force, stamp) == (Next(false), Stowed(t, src, dst))
  {
    PlainParent(t, src);
    LocatePlainParent(t, src);
    LocatePlainParent(t, dst);
    OccupiedByLocate(t, dst);
    ResolveByLocate(t, dst);
    ResolvePlain(t, Parent(dst));
    assert src[..|src|] == src;
    assert !IsSymlink(t, src) && !Exists(t, dst);
    assert MkdirpSpec(t, Parent(dst), false) == Ok(t);
    MoveAndLinkStows(t, src, dst);
  }

  /** Stowing a stowable path moves it into the repository and links it
      back from its old place. */
  lemma StowMovesIntoRepo(t: Tree, src: Path, home: Path, root: Path, force: bool, stamp: string)
    requires RepoDestForHomePath(src, home, root).Ok?
    requires Stowable(t, src, RepoDestForHomePath(src, home, root).value)
    ensures var dst := RepoDestForHomePath(src, home, root).value;
      StowStep(t, src, home, root, false, force, stamp) == (Next(false), Stowed(t, src, dst))
  {
    StowGuardPasses(t, src, home, root);
    StowPlaceMoves(t, src, RepoDestForHomePath(src, home, root).value, force, stamp);
  }

  /** Stowing twice is stowing once: the second time the path is a link
      into the repository. */
  lemma StowIdempotent(t: Tree, src: Path, dst: Path, home: Path, root: Path, dryRun: bool, force: bool,
                       stamp: string)
    requires Stowable(t, src, dst) && IsPrefix(root, dst)
    ensures StowStep(Stowed(t, src, dst), src, home, root, dryRun, force, stamp)
            == (Next(false), Stowed(t, src, dst))
  {
    StowedLinkResolves(t, src, dst);
  }

  /** The move back of an unstow undoes the move of a stow. */
  lemma MoveBackRestores(t: Tree, src: Path, dst: Path)
    requires Stowable(t, src, dst)
    ensures MoveBack(Stowed(t, src, dst), src, dst) == (Next(false), t)
  {
    var u := MoveTree(t, src, dst);
    var w := Stowed(t, src, dst);
    MovedKeys(t, src, dst);
    MovedParents(t, src, dst);
    PlainUpdated(u, src, Symlink(dst), Parent(src));
    LocatePlainParent(w, src);
    assert UnlinkSpec(w, src) == Ok(u) by {
      assert w - {src} == u;
    }
    ResolvePlain(u, Parent(src));
    assert MkdirpSpec(u, Parent(src), false) == Ok(u);
    LocatePlainParent(u, src);
    LocatePlainParent(u, dst);
    assert RenameSpec(u, dst, src) == Ok(MoveTree(u, dst, src));
    MoveTreeBack(t, src, dst);
  }

  /** Unstowing a stowed path restores the tree it was stowed from. */
  lemma UnstowUndoesStow(t: Tree, src: Path, dst: Path, root: Path, force: bool, stamp: string)
    requires Stowable(t, src, dst) && IsPrefix(root, dst)
    ensures UnstowStep(Stowed(t, src, dst), src, root, false, force, stamp) == (Next(false), t)
  {
    StowedLinkResolves(t, src, dst);
    MoveBackRestores(t, src, dst);
  }

  /** Before the `_mkdirp` of a stow: a free `dst` stays free once its
      parent is made, and was free before. */
  lemma FreeBeforeMkdir(t: Tree, dst: Path)
    requires dst != [] && dst !in t
    requires MkdirpSpec(t, Parent(dst), false).Ok?
    requires var made := MkdirpSpec(t, Parent(dst), false).value;
      dst !in made && Plain(made, Parent(dst))
    ensures !Occupied(t, dst)
  {
    var made := MkdirpSpec(t, Parent(dst), false).value;
    LocatePlainParent(made, dst);
    if made != t {
      MkdirMakesDir(t, Parent(dst));
      WalkSameLinks(t, made, [], Parent(dst), MaxDepth);
    }
    ResolveByLocate(t, dst);
  }

  /** A stow whose repository directory is missing makes it first, as the
      file stow of the self-test does (`config__app` is made for
      `.config/app/thing.txt`); the unstow then gives back the tree with
      that directory made. */
  lemma StowUnstowMakesParent(t: Tree, src: Path, home: Path, root: Path, force: bool, stamp: string,
                              force': bool, stamp': string)
    requires RepoDestForHomePath(src, home, root).Ok?
    requires var dst := RepoDestForHomePath(src, home, root).value;
      && src != [] && Plain(t, src) && dst !in t
      && MkdirpSpec(t, Parent(dst), false).Ok?
      && Stowable(MkdirpSpec(t, Parent(dst), false).value, src, dst)
    ensures var dst := RepoDestForHomePath(src, home, root).value;
      var made := MkdirpSpec(t, Parent(dst), false).value;
      var (s, u) := StowStep(t, src, home, root, false, force, stamp);
      && s == Next(false) && u == Stowed(made, src, dst)
      && UnstowStep(u, src, root, false, force', stamp') == (Next(false), made)
  {
    var dst := RepoDestForHomePath(src, home, root).value;
    var made := MkdirpSpec(t, Parent(dst), false).value;
    StowGuardPasses(t, src, home, root);
    FreeBeforeMkdir(t, dst);
    assert !AlreadyLinked(t, src, dst);
    MoveAndLinkStows(made, src, dst);
    assert StowPlace(t, src, dst, false, force, stamp) == (Next(false), Stowed(made, src, dst));
    UnstowUndoesStow(made, src, dst, root, force', stamp');
  }

  /** `stow` then `unstow` of a stowable home path is the identity. */
  lemma StowUnstowRoundTrip(t: Tree, src: Path, home: Path, root: Path, force: bool, stamp: string,
                            force': bool, stamp': string)
    requires RepoDestForHomePath(src, home, root).Ok?
    requires Stowable(t, src, RepoDestForHomePath(src, home, root).value)
    ensures var (s, u) := StowStep(t, src, home, root, false, force, stamp);
      s == Next(false) && UnstowStep(u, src, root, false, force', stamp') == (Next(false), t)
  {
    StowMovesIntoRepo(t, src, home, root, force, stamp);
    UnstowUndoesStow(t, src, RepoDestForHomePath(src, home, root).value, root, force', stamp');
  }
}
