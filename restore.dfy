/** The `restore.py` command: links every file of the repository into the
    home directory, file by file, including inside `config__<app>`. */
module Restore {
  import opened Strings
  import opened Paths
  import opened Results
  import opened Fs
  import opened Names
  import opened Listing
  import opened Engine

  /** `link_file`: makes `target` a link to `source`; with force it first
      renames whatever is there to a unique backup. `Conflict` stands for
      the ConflictError it raises. */
  method LinkFile(fs: FileSystem, target: Path, source: Path, dryRun: bool, force: bool, stamp: string)
    returns (o: Outcome)
    modifies fs
    ensures (o, fs.tree) == LinkSpec(old(fs.tree), target, source, dryRun, force, stamp, false)
  {
    if IsSameSymlink(fs.tree, target, source) {
      return Skipped;
    }
    if IsSameFile(fs.tree, target, source) {
      return Skipped;
    }
    if Occupied(fs.tree, target) {
      if !force {
        return Conflict;
      }
      var backup := UniqueBackupPath(fs, target, stamp);
      if !dryRun {
        var r := fs.Rename(target, backup);
        if r.Err? {
          return Failed(r.error);
        }
      }
    }
    if dryRun {
      return Linked;
    }
    var r := fs.SymlinkTo(target, source);
    if r.Err? {
      return Failed(r.error);
    }
    return Linked;
  }

  /** `iter_links`, with the generator's pairs collected in order: every
      directory is walked file by file. */
  method IterLinks(root: Path, home: Path, tops: seq<Top>) returns (pairs: seq<Pair>)
    ensures pairs == Pairs(root, home, tops, false)
  {
    pairs := [];
    for i := 0 to |tops|
      invariant pairs == Pairs(root, home, tops[..i], false)
    {
      var top := tops[i];
      assert tops[..i + 1][..i] == tops[..i];
      if top.name in IgnoreDirs {
        continue;
      }
      var base := home + MapTopLevelToHome(top.name);
      if top.isDir {
        var ps := WalkTop(root + [top.name], base, top.items);
        pairs := pairs + ps;
      } else {
        if Suffix(top.name) in IgnoreSuffixes {
          continue;
        }
        pairs := pairs + [Pair(root + [top.name], base)];
      }
    }
    assert tops[..|tops|] == tops;
  }

  /** `run_restore`: for each pair, makes the target's parent and links;
      a conflict is counted and the loop goes on, any other error stops it. */
  method RunRestore(fs: FileSystem, home: Path, root: Path, tops: seq<Top>, dryRun: bool, force: bool,
                    stamp: string) returns (r: RunResult)
    modifies fs
    ensures (r, fs.tree) == RestoreSpec(old(fs.tree), Pairs(root, home, tops, false), dryRun, force, stamp, false)
  {
    var pairs := IterLinks(root, home, tops);
    var counts := Counts(0, 0, 0);
    assert pairs[0..] == pairs;
    for i := 0 to |pairs|
      invariant RestoreFrom(fs.tree, pairs[i..], dryRun, force, stamp, false, counts)
                == RestoreSpec(old(fs.tree), pairs, dryRun, force, stamp, false)
    {
      var made := Mkdirp(fs, Parent(pairs[i].target), dryRun);
      if made.Err? {
        return Aborted(made.error);
      }
      var o := LinkFile(fs, pairs[i].target, pairs[i].source, dryRun, force, stamp);
      if o.Failed? {
        return Aborted(Os(o.error));
      }
      counts := Tally(counts, o);
    }
    return Finished(ExitCode(counts), counts);
  }
}
