/** The parts of the link engine both command-line tools share, written
    once: the backup-name allocator, `_mkdirp`, and the link decision
    itself (`link_path`, and `link_file`, which is the same decision
    without the empty-placeholder exception). */
module Engine {
  import opened Strings
  import opened Paths
  import opened Results
  import opened Fs
  import opened Names
  import opened Listing

  // ---------------------------------------------------------------
  // Backup names
  // ---------------------------------------------------------------

  /** ".bak.<stamp>" for the first candidate, ".bak.<stamp>.<i>" after. */
  function BackupSuffix(stamp: string, i: nat): (s: string)
    ensures |s| >= 5
  {
    if i == 0 then ".bak." + stamp else ".bak." + stamp + "." + Dec(i)
  }

  /** The i-th name `_unique_backup_path` tries for `p`. */
  function Candidate(p: Path, stamp: string, i: nat): Path
  {
    WithSuffix(p, BackupSuffix(stamp, i))
  }

  /** The key the i-th candidate occupies when the directory of `p`
      resolves to `d` and `p` is named `n`. */
  function SlotKey(d: Path, n: string, stamp: string, i: nat): Path
  {
    d + [n + BackupSuffix(stamp, i)]
  }

  /** Two numbered suffixes agree only for the same number. */
  lemma BackupSuffixInjective(n: string, stamp: string, i: nat, j: nat)
    requires 1 <= i && 1 <= j
    requires n + BackupSuffix(stamp, i) == n + BackupSuffix(stamp, j)
    ensures i == j
  {
    var q := ".bak." + stamp + ".";
    var di, dj := Dec(i), Dec(j);
    assert BackupSuffix(stamp, i) == q + di;
    assert BackupSuffix(stamp, j) == q + dj;
    AppendCancel(n, q + di, q + dj);
    AppendCancel(q, di, dj);
    DecInjective(i, j);
  }

  /** A candidate is occupied exactly when its key is in the tree. */
  lemma CandidateOccupied(t: Tree, p: Path, stamp: string, i: nat)
    ensures Walk(t, [], Parent(p), MaxDepth).None? ==> !Occupied(t, Candidate(p, stamp, i))
    ensures Walk(t, [], Parent(p), MaxDepth).Some? ==>
      (Occupied(t, Candidate(p, stamp, i)) <==>
       SlotKey(Walk(t, [], Parent(p), MaxDepth).value, Name(p), stamp, i) in t)
  {
    OccupiedByLocate(t, Candidate(p, stamp, i));
  }

  /** The keys candidates 1 .. i-1 occupy. */
  function UsedKeys(d: Path, n: string, stamp: string, i: nat): set<Path>
  {
    set j | 1 <= j < i :: SlotKey(d, n, stamp, j)
  }

  lemma SubsetCard<T>(a: set<T>, b: set<T>)
    requires a <= b
    ensures |a| <= |b|
  {
    assert b == a + (b - a);
  }

  /** The key of candidate i is not among the keys of candidates 1 .. i-1. */
  lemma SlotKeyFresh(d: Path, n: string, stamp: string, i: nat)
    requires i >= 1
    ensures SlotKey(d, n, stamp, i) !in UsedKeys(d, n, stamp, i)
  {
    var s := SlotKey(d, n, stamp, i);
    forall j | 1 <= j < i ensures SlotKey(d, n, stamp, j) != s {
      if SlotKey(d, n, stamp, j) == s {
        assert n + BackupSuffix(stamp, j) == SlotKey(d, n, stamp, j)[|d|];
        BackupSuffixInjective(n, stamp, j, i);
      }
    }
  }

  /** One more candidate adds its key. */
  lemma UsedKeysStep(d: Path, n: string, stamp: string, i: nat)
    requires i >= 1
    ensures UsedKeys(d, n, stamp, i + 1) == UsedKeys(d, n, stamp, i) + {SlotKey(d, n, stamp, i)}
  {
  }

  /** Pigeonhole: when candidates 1 .. i-1 are all taken they hold i-1
      distinct keys of the tree, so i cannot exceed the size of the tree
      by more than one. */
  lemma {:induction false} SearchBound(keys: set<Path>, d: Path, n: string, stamp: string, i: nat)
    requires i >= 1
    requires forall j :: 1 <= j < i ==> SlotKey(d, n, stamp, j) in keys
    ensures UsedKeys(d, n, stamp, i) <= keys
    ensures |UsedKeys(d, n, stamp, i)| == i - 1
    ensures i <= |keys| + 1
  {
    if i > 1 {
      SearchBound(keys, d, n, stamp, i - 1);
      SlotKeyFresh(d, n, stamp, i - 1);
      UsedKeysStep(d, n, stamp, i - 1);
    } else {
      assert UsedKeys(d, n, stamp, i) == {};
    }
    SubsetCard(UsedKeys(d, n, stamp, i), keys);
  }

  /** The first numbered candidate from i on whose key is free; the
      candidates before i are known to be taken. */
  function FreeIndexFrom(keys: set<Path>, d: Path, n: string, stamp: string, i: nat): (k: nat)
    requires i >= 1
    requires forall j :: 1 <= j < i ==> SlotKey(d, n, stamp, j) in keys
    ensures k >= i
    ensures SlotKey(d, n, stamp, k) !in keys
    ensures forall j :: 1 <= j < k ==> SlotKey(d, n, stamp, j) in keys
    decreases |keys| + 1 - i
  {
    if SlotKey(d, n, stamp, i) !in keys then i
    else
      SearchBound(keys, d, n, stamp, i + 1);
      FreeIndexFrom(keys, d, n, stamp, i + 1)
  }

  /** Which candidate `_unique_backup_path` settles on: 0 for the bare
      ".bak.<stamp>" name, else the smallest free number. */
  function BackupIndex(t: Tree, p: Path, stamp: string): (k: nat)
    ensures !Occupied(t, Candidate(p, stamp, k))
    ensures k == 0 <==> !Occupied(t, Candidate(p, stamp, 0))
    ensures forall j :: 1 <= j < k ==> Occupied(t, Candidate(p, stamp, j))
  {
    CandidateOccupied(t, p, stamp, 0);
    if !Occupied(t, Candidate(p, stamp, 0)) then 0
    else
      var d := Walk(t, [], Parent(p), MaxDepth).value;
      var k := FreeIndexFrom(t.Keys, d, Name(p), stamp, 1);
      CandidateOccupied(t, p, stamp, k);
      assert forall j :: 1 <= j < k ==> Occupied(t, Candidate(p, stamp, j)) by {
        forall j | 1 <= j < k ensures Occupied(t, Candidate(p, stamp, j)) {
          CandidateOccupied(t, p, stamp, j);
        }
      }
      k
  }

  /** The backup path `_unique_backup_path` returns. */
  function UniqueBackup(t: Tree, p: Path, stamp: string): Path
  {
    Candidate(p, stamp, BackupIndex(t, p, stamp))
  }

  /** `_unique_backup_path(path, stamp)`: tries ".bak.<stamp>", then
      ".bak.<stamp>.1", ".2", ... until neither `exists()` nor
      `is_symlink()` holds for the name. */
  method UniqueBackupPath(fs: FileSystem, p: Path, stamp: string) returns (b: Path)
    ensures !Exists(fs.tree, b) && !IsSymlink(fs.tree, b)
    ensures !Occupied(fs.tree, Candidate(p, stamp, 0)) ==> b == Candidate(p, stamp, 0)
    ensures Occupied(fs.tree, Candidate(p, stamp, 0)) ==>
      exists k :: k >= 1 && b == Candidate(p, stamp, k) &&
        forall j :: 1 <= j < k ==> Occupied(fs.tree, Candidate(p, stamp, j))
    ensures b == UniqueBackup(fs.tree, p, stamp)
  {
    var base := Candidate(p, stamp, 0);
    if !Exists(fs.tree, base) && !IsSymlink(fs.tree, base) {
      return base;
    }
    CandidateOccupied(fs.tree, p, stamp, 0);
    ghost var d := Walk(fs.tree, [], Parent(p), MaxDepth).value;
    var i := 1;
    while true
      invariant i >= 1
      invariant forall j :: 1 <= j < i ==> SlotKey(d, Name(p), stamp, j) in fs.tree
      invariant FreeIndexFrom(fs.tree.Keys, d, Name(p), stamp, i) == BackupIndex(fs.tree, p, stamp)
      decreases |fs.tree.Keys| + 1 - i
    {
      var candidate := Candidate(p, stamp, i);
      CandidateOccupied(fs.tree, p, stamp, i);
      if !Exists(fs.tree, candidate) && !IsSymlink(fs.tree, candidate) {
        return candidate;
      }
      SearchBound(fs.tree.Keys, d, Name(p), stamp, i + 1);
      i := i + 1;
    }
  }

  // ---------------------------------------------------------------
  // _mkdirp
  // ---------------------------------------------------------------

  /** Why a run stops early: `_mkdirp` finding a non-directory in the way
      (a ConflictError raised outside the per-pair handler), an OSError
      from a system call, or the ValueError of the home-to-repo mapping. */
  datatype Fault = Blocked(path: Path) | Os(error: OsError) | Unmappable(reason: MapError)

  /** `_mkdirp(path, dry_run)`: nothing to do for a directory; refuses
      anything else that exists; otherwise `mkdir -p`, unless dry-run. */
  function MkdirpSpec(t: Tree, p: Path, dryRun: bool): (r: Result<Tree, Fault>)
    ensures r.Err? && r.error.Blocked? <==> Exists(t, p) && !IsDir(t, p)
    ensures r.Err? ==> r.error.Blocked? || (r.error.Os? && !dryRun)
    ensures r.Ok? && (dryRun || IsDir(t, p)) ==> r.value == t
  {
    if IsDir(t, p) then Ok(t)
    else if Exists(t, p) && !IsDir(t, p) then Err(Blocked(p))
    else if dryRun then Ok(t)
    else
      match MkdirSpec(t, p)
      case Ok(u) => Ok(u)
      case Err(e) => Err(Os(e))
  }

  /** A real `_mkdirp` that succeeds leaves a directory at the path,
      adds nothing but directories and keeps the tree well-formed. */
  lemma MkdirpMakesDir(t: Tree, p: Path, dryRun: bool)
    requires MkdirpSpec(t, p, dryRun).Ok? && !dryRun
    ensures IsDir(MkdirpSpec(t, p, dryRun).value, p)
    ensures AddsDirs(t, MkdirpSpec(t, p, dryRun).value)
    ensures Valid(t) ==> Valid(MkdirpSpec(t, p, dryRun).value)
  {
    if !IsDir(t, p) {
      MkdirAddsDirs(t, p);
      MkdirMakesDir(t, p);
    }
  }

  /** `_mkdirp`, run against the filesystem. */
  method Mkdirp(fs: FileSystem, p: Path, dryRun: bool) returns (r: Result<(), Fault>)
    modifies fs
    ensures r.Ok? <==> MkdirpSpec(old(fs.tree), p, dryRun).Ok?
    ensures r.Ok? ==> fs.tree == MkdirpSpec(old(fs.tree), p, dryRun).value
    ensures r.Err? ==> r.error == MkdirpSpec(old(fs.tree), p, dryRun).error && fs.tree == old(fs.tree)
  {
    if IsDir(fs.tree, p) {
      return Ok(());
    }
    if Exists(fs.tree, p) && !IsDir(fs.tree, p) {
      return Err(Blocked(p));
    }
    if dryRun {
      return Ok(());
    }
    var m := fs.MkdirParents(p);
    if m.Err? {
      return Err(Os(m.error));
    }
    return Ok(());
  }

  // ---------------------------------------------------------------
  // The link decision
  // ---------------------------------------------------------------

  /** What linking one pair comes to: the action returned ("LINK" or
      "SKIP"), a ConflictError, or an OSError that escapes the run. */
  datatype Outcome = Linked | Skipped | Conflict | Failed(error: OsError)

  /** The target already is what the link would give. */
  predicate AlreadyLinked(t: Tree, target: Path, source: Path)
  {
    IsSameSymlink(t, target, source) || IsSameFile(t, target, source)
  }

  /** An empty real directory standing where a link to a directory should go. */
  predicate Placeholder(t: Tree, target: Path, source: Path)
  {
    && IsDir(t, source) && Exists(t, target) && IsDir(t, target) && !IsSymlink(t, target)
    && NoChildren(t, Resolve(t, target).value)
  }

  /** `target.symlink_to(source)`. */
  function PlaceLink(t: Tree, target: Path, source: Path): (Outcome, Tree)
  {
    match CreateSpec(t, target, Symlink(source))
    case Ok(u) => (Linked, u)
    case Err(e) => (Failed(e), t)
  }

  /** Links once the target has been cleared (by rmdir or backup), unless
      clearing failed. */
  function LinkAfter(t: Tree, cleared: Result<Tree, OsError>, target: Path, source: Path): (Outcome, Tree)
  {
    match cleared
    case Err(e) => (Failed(e), t)
    case Ok(u) => PlaceLink(u, target, source)
  }

  /** `_backup_existing(path, dry_run)`: renames the path to its unique
      backup name, unless dry-run. */
  function BackupSpec(t: Tree, p: Path, stamp: string, dryRun: bool): Result<Tree, OsError>
  {
    if dryRun then Ok(t) else RenameSpec(t, p, UniqueBackup(t, p, stamp))
  }

  /** The forced path: rename the target to its backup, then link. */
  function BackupThenLink(t: Tree, target: Path, source: Path, stamp: string): (Outcome, Tree)
  {
    LinkAfter(t, BackupSpec(t, target, stamp, false), target, source)
  }

  /** The decision `link_path` makes (`placeholders` true) and
      `link_file` makes (`placeholders` false), with the tree it leaves. */
  function LinkSpec(t: Tree, target: Path, source: Path, dryRun: bool, force: bool, stamp: string,
                    placeholders: bool): (r: (Outcome, Tree))
    ensures dryRun ==> r.1 == t && !r.0.Failed?
  {
    if AlreadyLinked(t, target, source) then (Skipped, t)
    else if Occupied(t, target) && placeholders && Placeholder(t, target, source) then
      if dryRun then (Linked, t) else LinkAfter(t, RmdirSpec(t, target), target, source)
    else if Occupied(t, target) && !force then (Conflict, t)
    else if Occupied(t, target) then
      if dryRun then (Linked, t) else BackupThenLink(t, target, source, stamp)
    else if dryRun then (Linked, t)
    else PlaceLink(t, target, source)
  }

  /** SKIP is returned exactly when the target already is the link or the
      same file, and then nothing changes. */
  lemma SkipExactlyWhenLinked(t: Tree, target: Path, source: Path, dryRun: bool, force: bool,
                              stamp: string, placeholders: bool)
    ensures LinkSpec(t, target, source, dryRun, force, stamp, placeholders).0 == Skipped
        <==> AlreadyLinked(t, target, source)
    ensures LinkSpec(t, target, source, dryRun, force, stamp, placeholders).0 == Skipped
        ==> LinkSpec(t, target, source, dryRun, force, stamp, placeholders).1 == t
  {
  }

  /** A conflict is raised exactly when something other than the link
      (a file, a directory, a dangling link) is in the way, force is off
      and the placeholder exception does not apply; nothing changes. */
  lemma ConflictExactlyWhenBlocked(t: Tree, target: Path, source: Path, dryRun: bool, force: bool,
                                   stamp: string, placeholders: bool)
    ensures LinkSpec(t, target, source, dryRun, force, stamp, placeholders).0 == Conflict
        <==> !AlreadyLinked(t, target, source) && Occupied(t, target) && !force
             && !(placeholders && Placeholder(t, target, source))
    ensures LinkSpec(t, target, source, dryRun, force, stamp, placeholders).0 == Conflict
        ==> LinkSpec(t, target, source, dryRun, force, stamp, placeholders).1 == t
  {
  }

  /** A dry run changes nothing and reports what the real run reports,
      except where the real run hits an OSError. */
  lemma DryRunAgrees(t: Tree, target: Path, source: Path, force: bool, stamp: string, placeholders: bool)
    ensures LinkSpec(t, target, source, true, force, stamp, placeholders).1 == t
    ensures !LinkSpec(t, target, source, false, force, stamp, placeholders).0.Failed? ==>
      LinkSpec(t, target, source, true, force, stamp, placeholders).0
        == LinkSpec(t, target, source, false, force, stamp, placeholders).0
    ensures LinkSpec(t, target, source, false, force, stamp, placeholders).0.Failed? ==>
      LinkSpec(t, target, source, true, force, stamp, placeholders).0 == Linked
  {
  }

  /** `link_path` and `link_file` decide alike except for an empty
      placeholder directory, which only `link_path` replaces without force. */
  lemma PlaceholderIsTheOnlyDifference(t: Tree, target: Path, source: Path, dryRun: bool, force: bool,
                                       stamp: string)
    ensures LinkSpec(t, target, source, dryRun, force, stamp, true)
            != LinkSpec(t, target, source, dryRun, force, stamp, false)
        ==> !AlreadyLinked(t, target, source) && Occupied(t, target) && Placeholder(t, target, source)
  {
  }

  /** The backup sits beside `p`, one name longer. */
  lemma BackupBeside(t: Tree, p: Path, stamp: string)
    requires p != []
    ensures Parent(UniqueBackup(t, p, stamp)) == Parent(p)
    ensures |UniqueBackup(t, p, stamp)| == |p|
    ensures UniqueBackup(t, p, stamp) != p
  {
    var b := UniqueBackup(t, p, stamp);
    assert Name(b) == Name(p) + BackupSuffix(stamp, BackupIndex(t, p, stamp));
  }

  /** A free target under a plain directory becomes the link. */
  lemma FreeTargetLinked(t: Tree, target: Path, source: Path, force: bool, stamp: string, placeholders: bool)
    requires target != [] && Plain(t, Parent(target)) && DirAt(t, Parent(target))
    requires target !in t
    ensures LinkSpec(t, target, source, false, force, stamp, placeholders)
            == (Linked, t[target := Symlink(source)])
  {
    LocatePlainParent(t, target);
    OccupiedByLocate(t, target);
  }

  /** Renaming an occupied target under a plain directory to its backup
      succeeds and moves its subtree there. */
  lemma BackupRenames(t: Tree, target: Path, stamp: string)
    requires Valid(t) && target != [] && Plain(t, Parent(target))
    requires target in t
    ensures UniqueBackup(t, target, stamp) !in t
    ensures RenameSpec(t, target, UniqueBackup(t, target, stamp))
            == Ok(MoveTree(t, target, UniqueBackup(t, target, stamp)))
  {
    var b := UniqueBackup(t, target, stamp);
    LocatePlainParent(t, target);
    BackupBeside(t, target, stamp);
    LocatePlainParent(t, b);
    OccupiedByLocate(t, b);
    assert !IsPrefix(target, b);
  }

  /** After the target's subtree moved to a sibling the target's place is
      free, and the link goes there. */
  lemma LinkAfterMove(t: Tree, target: Path, b: Path, source: Path)
    requires Valid(t) && target != [] && Plain(t, Parent(target))
    requires target in t && b !in t
    requires Parent(b) == Parent(target) && |b| == |target| && b != target
    ensures PlaceLink(MoveTree(t, target, b), target, source)
            == (Linked, MoveTree(t, target, b)[target := Symlink(source)])
  {
    var u := MoveTree(t, target, b);
    assert Plain(u, Parent(target)) by {
      forall k | 1 <= k <= |Parent(target)|
        ensures Parent(target)[..k] in u && u[Parent(target)[..k]] == t[Parent(target)[..k]]
      {
        MoveTreeKeeps(t, target, b, Parent(target)[..k]);
      }
    }
    LocatePlainParent(u, target);
    if target in u {
      MoveTreeKeys(t, target, b, target);
    }
    if Parent(target) != [] {
      MoveTreeKeeps(t, target, b, Parent(target));
    }
    assert CreateSpec(u, target, Symlink(source)) == Ok(u[target := Symlink(source)]);
  }

  /** Backing up an occupied target under a plain directory and linking:
      the backup keeps the old entry, and the link takes its place. */
  lemma BackupThenLinkReplaces(t: Tree, target: Path, source: Path, stamp: string)
    requires Valid(t) && target != [] && Plain(t, Parent(target))
    requires target in t
    ensures BackupThenLink(t, target, source, stamp)
            == (Linked, MoveTree(t, target, UniqueBackup(t, target, stamp))[target := Symlink(source)])
    ensures var u := BackupThenLink(t, target, source, stamp).1;
            UniqueBackup(t, target, stamp) in u && u[UniqueBackup(t, target, stamp)] == t[target]
  {
    var b := UniqueBackup(t, target, stamp);
    BackupBeside(t, target, stamp);
    BackupRenames(t, target, stamp);
    var m := MoveTree(t, target, b);
    assert BackupSpec(t, target, stamp, false) == Ok(m);
    LinkAfterMove(t, target, b, source);
    assert BackupThenLink(t, target, source, stamp) == (Linked, m[target := Symlink(source)]);
    BackupKeepsEntry(t, target, b);
  }

  /** The moved subtree's root sits at the backup name, which is not the target. */
  lemma BackupKeepsEntry(t: Tree, target: Path, b: Path)
    requires target in t && b != target
    ensures b in MoveTree(t, target, b) && MoveTree(t, target, b)[b] == t[target]
  {
    MoveTreeMoves(t, target, b, target);
    assert Moved(target, b, target) == b;
  }

  /** With force an occupied target is renamed to a fresh backup beside
      it, which keeps the old entry, and the link takes its place. */
  lemma ForcedLinkReplaces(t: Tree, target: Path, source: Path, stamp: string, placeholders: bool)
    requires Valid(t) && target != [] && Plain(t, Parent(target))
    requires target in t
    requires !AlreadyLinked(t, target, source) && !(placeholders && Placeholder(t, target, source))
    ensures UniqueBackup(t, target, stamp) !in t
    ensures Parent(UniqueBackup(t, target, stamp)) == Parent(target)
    ensures LinkSpec(t, target, source, false, true, stamp, placeholders)
            == (Linked, MoveTree(t, target, UniqueBackup(t, target, stamp))[target := Symlink(source)])
    ensures var u := LinkSpec(t, target, source, false, true, stamp, placeholders).1;
            UniqueBackup(t, target, stamp) in u && u[UniqueBackup(t, target, stamp)] == t[target]
  {
    LocatePlainParent(t, target);
    OccupiedByLocate(t, target);
    BackupBeside(t, target, stamp);
    BackupRenames(t, target, stamp);
    BackupThenLinkReplaces(t, target, source, stamp);
  }

  /** Removing an empty directory under a plain directory frees its place
      for the link. */
  lemma LinkAfterRmdir(t: Tree, target: Path, source: Path)
    requires Valid(t) && target != [] && Plain(t, Parent(target))
    requires target in t && t[target] == Dir && NoChildren(t, target)
    ensures LinkAfter(t, RmdirSpec(t, target), target, source) == (Linked, t[target := Symlink(source)])
  {
    LocatePlainParent(t, target);
    var u := t - {target};
    assert RmdirSpec(t, target) == Ok(u);
    assert Plain(u, Parent(target)) by {
      forall k | 1 <= k <= |Parent(target)| ensures Parent(target)[..k] != target { }
    }
    LocatePlainParent(u, target);
    assert u[target := Symlink(source)] == t[target := Symlink(source)];
  }

  /** `link_path` replaces an empty real directory by a link to a
      directory without force; `link_file` reports a conflict instead. */
  lemma PlaceholderReplaced(t: Tree, target: Path, source: Path, force: bool, stamp: string)
    requires Valid(t) && target != [] && Plain(t, Parent(target))
    requires target in t && t[target] == Dir && NoChildren(t, target)
    requires IsDir(t, source) && Resolve(t, source) != Some(target)
    ensures LinkSpec(t, target, source, false, force, stamp, true) == (Linked, t[target := Symlink(source)])
    ensures !force ==> LinkSpec(t, target, source, false, force, stamp, false) == (Conflict, t)
  {
    LocatePlainParent(t, target);
    ResolveByLocate(t, target);
    assert Occupied(t, target) && !AlreadyLinked(t, target, source);
    assert Placeholder(t, target, source);
    LinkAfterRmdir(t, target, source);
  }

  /** Once the target is the link, the next call returns SKIP and changes
      nothing, provided the source resolves to itself. */
  lemma LinkedTargetSkipped(u: Tree, target: Path, source: Path, dryRun: bool, force: bool,
                            stamp: string, placeholders: bool)
    requires target != [] && Plain(u, Parent(target)) && Plain(u, source)
    requires target in u && u[target] == Symlink(source)
    ensures LinkSpec(u, target, source, dryRun, force, stamp, placeholders) == (Skipped, u)
  {
    LocatePlainParent(u, target);
    ResolveByLocate(u, target);
    assert [] + source == source;
    WalkPlain(u, [], source, MaxDepth - 1);
    ResolvePlain(u, source);
    assert IsSameSymlink(u, target, source);
  }

  /** Linking twice: a free target linked once is skipped the second time. */
  lemma FreeTargetIdempotent(t: Tree, target: Path, source: Path, force: bool, stamp: string, placeholders: bool)
    requires target != [] && Plain(t, Parent(target)) && DirAt(t, Parent(target))
    requires target !in t
    requires Plain(t, source) && !IsPrefix(target, source)
    ensures var u := LinkSpec(t, target, source, false, force, stamp, placeholders).1;
            LinkSpec(u, target, source, false, force, stamp, placeholders) == (Skipped, u)
  {
    FreeTargetLinked(t, target, source, force, stamp, placeholders);
    var u := t[target := Symlink(source)];
    assert Plain(u, Parent(target)) by {
      forall k | 1 <= k <= |Parent(target)| ensures Parent(target)[..k] != target { }
    }
    assert Plain(u, source) by {
      forall k | 1 <= k <= |source| ensures source[..k] != target { }
    }
    LinkedTargetSkipped(u, target, source, false, force, stamp, placeholders);
  }

  /** The parent of the target and the source stay plain when the
      target's subtree moves to an absent sibling and the link takes its
      place. */
  lemma PlainAfterForcedLink(t: Tree, target: Path, source: Path, b: Path)
    requires Valid(t) && target != [] && Plain(t, Parent(target))
    requires b != [] && b !in t && |b| == |target| && b != target
    requires Plain(t, source) && !IsPrefix(target, source)
    ensures Plain(MoveTree(t, target, b)[target := Symlink(source)], Parent(target))
    ensures Plain(MoveTree(t, target, b)[target := Symlink(source)], source)
  {
    var u := MoveTree(t, target, b)[target := Symlink(source)];
    forall k | 1 <= k <= |Parent(target)|
      ensures Parent(target)[..k] in u && u[Parent(target)[..k]] == t[Parent(target)[..k]]
    {
      MoveTreeKeeps(t, target, b, Parent(target)[..k]);
    }
    forall k | 1 <= k <= |source|
      ensures source[..k] in u && u[source[..k]] == t[source[..k]]
    {
      var x := source[..k];
      PrefixTransitive(target, x, source);
      NothingUnderAbsent(t, b, x);
      MoveTreeKeeps(t, target, b, x);
      assert x != target;
    }
  }

  /** Linking twice with force: after the backup and the link, a second
      call is skipped. */
  lemma ForcedLinkIdempotent(t: Tree, target: Path, source: Path, stamp: string, placeholders: bool)
    requires Valid(t) && target != [] && Plain(t, Parent(target))
    requires target in t
    requires !AlreadyLinked(t, target, source) && !(placeholders && Placeholder(t, target, source))
    requires Plain(t, source) && !IsPrefix(target, source)
    ensures var u := LinkSpec(t, target, source, false, true, stamp, placeholders).1;
            LinkSpec(u, target, source, false, true, stamp, placeholders) == (Skipped, u)
  {
    var b := UniqueBackup(t, target, stamp);
    ForcedLinkReplaces(t, target, source, stamp, placeholders);
    BackupBeside(t, target, stamp);
    PlainAfterForcedLink(t, target, source, b);
    LinkedTargetSkipped(MoveTree(t, target, b)[target := Symlink(source)], target, source,
                        false, true, stamp, placeholders);
  }

  // ---------------------------------------------------------------
  // run_restore
  // ---------------------------------------------------------------

  /** The LINK / SKIP / CONFLICT tallies. */
  datatype Counts = Counts(linked: nat, skipped: nat, conflicts: nat)

  function Total(c: Counts): nat
  {
    c.linked + c.skipped + c.conflicts
  }

  /** The exit status of a finished run. */
  function ExitCode(c: Counts): int
  {
    if c.conflicts == 0 then 0 else 2
  }

  /** A run that went through every pair, or one an exception stopped. */
  datatype RunResult = Finished(rc: int, counts: Counts) | Aborted(fault: Fault)

  /** Counts one outcome (an OSError is not counted: it stops the run). */
  function Tally(c: Counts, o: Outcome): (r: Counts)
    ensures !o.Failed? ==> Total(r) == Total(c) + 1
    ensures r.conflicts == if o == Conflict then c.conflicts + 1 else c.conflicts
  {
    match o
    case Linked => c.(linked := c.linked + 1)
    case Skipped => c.(skipped := c.skipped + 1)
    case Conflict => c.(conflicts := c.conflicts + 1)
    case Failed(_) => c
  }

  /** One pair of the restore loop: `_mkdirp` of the target's parent, then
      the link; the outcome counted, or the fault that stops the run. */
  function RestorePair(t: Tree, q: Pair, dryRun: bool, force: bool, stamp: string,
                       placeholders: bool): (r: (Result<Outcome, Fault>, Tree))
    ensures r.0.Ok? ==> !r.0.value.Failed?
    ensures dryRun ==> r.1 == t
  {
    match MkdirpSpec(t, Parent(q.target), dryRun)
    case Err(f) => (Err(f), t)
    case Ok(t1) =>
      var (o, t2) := LinkSpec(t1, q.target, q.source, dryRun, force, stamp, placeholders);
      if o.Failed? then (Err(Os(o.error)), t2) else (Ok(o), t2)
  }

  /** The rest of the restore loop from the counts `c` on: for each pair,
      `_mkdirp` of the target's parent (outside the handler, so its
      failure stops the run), then the link, whose conflict is counted
      and the loop goes on. */
  function RestoreFrom(t: Tree, pairs: seq<Pair>, dryRun: bool, force: bool, stamp: string,
                       placeholders: bool, c: Counts): (r: (RunResult, Tree))
    ensures r.0.Finished? ==> Total(r.0.counts) == Total(c) + |pairs|
    ensures r.0.Finished? ==> r.0.counts.conflicts >= c.conflicts
    ensures r.0.Finished? ==> (r.0.rc == 0 <==> r.0.counts.conflicts == 0)
    ensures r.0.Finished? ==> r.0.rc == ExitCode(r.0.counts)
    ensures pairs != [] && RestorePair(t, pairs[0], dryRun, force, stamp, placeholders).0.Err? ==> r.0.Aborted?
    ensures dryRun ==> r.1 == t
    decreases |pairs|
  {
    if pairs == [] then (Finished(ExitCode(c), c), t)
    else
      var (s, t2) := RestorePair(t, pairs[0], dryRun, force, stamp, placeholders);
      if s.Err? then (Aborted(s.error), t2)
      else RestoreFrom(t2, pairs[1..], dryRun, force, stamp, placeholders, Tally(c, s.value))
  }

  /** A restore of the pairs from zero counts. */
  function RestoreSpec(t: Tree, pairs: seq<Pair>, dryRun: bool, force: bool, stamp: string,
                       placeholders: bool): (RunResult, Tree)
  {
    var zero := Counts(0, 0, 0);
    RestoreFrom(t, pairs, dryRun, force, stamp, placeholders, zero)
  }

  /** A finished restore counts every pair once and exits 0 exactly when
      no pair was a conflict; a dry run changes nothing. */
  lemma RestoreCounts(t: Tree, pairs: seq<Pair>, dryRun: bool, force: bool, stamp: string,
                      placeholders: bool)
    ensures var (r, u) := RestoreSpec(t, pairs, dryRun, force, stamp, placeholders);
      && (r.Finished? ==> Total(r.counts) == |pairs| && (r.rc == 0 <==> r.counts.conflicts == 0))
      && (dryRun ==> u == t)
  {
    var zero := Counts(0, 0, 0);
    assert Total(zero) == 0;
    var res := RestoreFrom(t, pairs, dryRun, force, stamp, placeholders, zero);
    assert res == RestoreSpec(t, pairs, dryRun, force, stamp, placeholders);
  }

  /** A conflict on one pair is counted and the loop goes on with the
      rest; a run that then finishes exits 2. */
  lemma RestoreConflictGoesOn(t: Tree, q: Pair, rest: seq<Pair>, dryRun: bool, force: bool, stamp: string,
                              placeholders: bool, c: Counts)
    requires RestorePair(t, q, dryRun, force, stamp, placeholders).0 == Ok(Conflict)
    ensures var u := RestorePair(t, q, dryRun, force, stamp, placeholders).1;
      RestoreFrom(t, [q] + rest, dryRun, force, stamp, placeholders, c)
      == RestoreFrom(u, rest, dryRun, force, stamp, placeholders, Tally(c, Conflict))
    ensures var r := RestoreFrom(t, [q] + rest, dryRun, force, stamp, placeholders, c).0;
      r.Finished? ==> r.rc == 2
  {
    assert ([q] + rest)[0] == q && ([q] + rest)[1..] == rest;
  }

  /** The target's parent is something other than a directory, so
      `_mkdirp` refuses it. */
  predicate ParentBlocked(t: Tree, q: Pair)
  {
    Exists(t, Parent(q.target)) && !IsDir(t, Parent(q.target))
  }

  /** A dry run goes through every pair exactly when no target's parent
      is blocked: nothing else can stop it, since it changes nothing. */
  lemma {:induction false} RestoreDryRunFinishes(t: Tree, pairs: seq<Pair>, force: bool, stamp: string,
                                                placeholders: bool, c: Counts)
    ensures RestoreFrom(t, pairs, true, force, stamp, placeholders, c).0.Finished?
            <==> forall i :: 0 <= i < |pairs| ==> !ParentBlocked(t, pairs[i])
    decreases |pairs|
  {
    if pairs != [] {
      var (s, u) := RestorePair(t, pairs[0], true, force, stamp, placeholders);
      if s.Ok? {
        RestoreDryRunFinishes(t, pairs[1..], force, stamp, placeholders, Tally(c, s.value));
        assert forall i :: 1 <= i < |pairs| ==> pairs[i] == pairs[1..][i - 1];
      }
    }
  }

  /** Restoring over a real file without force, as the third run of the
      self-test does, is a conflict: the file stays, the loop goes on, and
      a run that finishes exits 2. */
  lemma RestoreOverFileConflicts(t: Tree, q: Pair, rest: seq<Pair>, dryRun: bool, stamp: string,
                                 placeholders: bool, c: Counts)
    requires q.target != [] && Plain(t, Parent(q.target)) && DirAt(t, Parent(q.target))
    requires q.target in t && t[q.target].File?
    requires !IsSameFile(t, q.target, q.source)
    ensures RestorePair(t, q, dryRun, false, stamp, placeholders) == (Ok(Conflict), t)
    ensures var r := RestoreFrom(t, [q] + rest, dryRun, false, stamp, placeholders, c).0;
      r.Finished? ==> r.rc == 2
  {
    ResolvePlain(t, Parent(q.target));
    assert MkdirpSpec(t, Parent(q.target), dryRun) == Ok(t);
    LocatePlainParent(t, q.target);
    ResolveByLocate(t, q.target);
    assert !IsSymlink(t, q.target) && Exists(t, q.target) && !IsDir(t, q.target);
    ConflictExactlyWhenBlocked(t, q.target, q.source, dryRun, false, stamp, placeholders);
    RestoreConflictGoesOn(t, q, rest, dryRun, false, stamp, placeholders, c);
  }

  /** The pair's target is already the link to its source, under a plain
      directory, and the source resolves to itself. */
  predicate LinkInPlace(u: Tree, q: Pair)
  {
    && q.target != [] && Plain(u, Parent(q.target)) && DirAt(u, Parent(q.target))
    && Plain(u, q.source) && q.target in u && u[q.target] == Symlink(q.source)
  }

  /** A pair whose link is in place is skipped without changing anything. */
  lemma RestoreSkipsFirst(u: Tree, pairs: seq<Pair>, dryRun: bool, force: bool,
                          stamp: string, placeholders: bool, c: Counts)
    requires pairs != [] && LinkInPlace(u, pairs[0])
    ensures RestoreFrom(u, pairs, dryRun, force, stamp, placeholders, c)
            == RestoreFrom(u, pairs[1..], dryRun, force, stamp, placeholders, Tally(c, Skipped))
  {
    var q := pairs[0];
    ResolvePlain(u, Parent(q.target));
    assert MkdirpSpec(u, Parent(q.target), dryRun) == Ok(u);
    LinkedTargetSkipped(u, q.target, q.source, dryRun, force, stamp, placeholders);
  }

  /** Restoring again when every target is already its link skips every
      pair, changes nothing and keeps the exit status of the counts so far. */
  lemma {:induction false} RestoreAgainSkipsAll(u: Tree, pairs: seq<Pair>, dryRun: bool, force: bool,
                                               stamp: string, placeholders: bool, c: Counts)
    requires forall i :: 0 <= i < |pairs| ==> LinkInPlace(u, pairs[i])
    ensures RestoreFrom(u, pairs, dryRun, force, stamp, placeholders, c)
            == (Finished(ExitCode(c), c.(skipped := c.skipped + |pairs|)), u)
    decreases |pairs|
  {
    if pairs != [] {
      RestoreSkipsFirst(u, pairs, dryRun, force, stamp, placeholders, c);
      forall i | 0 <= i < |pairs[1..]| ensures LinkInPlace(u, pairs[1..][i]) {
        assert pairs[1..][i] == pairs[i + 1];
      }
      var c' := Tally(c, Skipped);
      RestoreAgainSkipsAll(u, pairs[1..], dryRun, force, stamp, placeholders, c');
      assert c'.(skipped := c'.skipped + |pairs[1..]|) == c.(skipped := c.skipped + |pairs|);
    }
  }

  /** A restore over links that are all in place exits 0 with every pair
      skipped, and changes nothing. */
  lemma RestoreIdempotent(u: Tree, pairs: seq<Pair>, dryRun: bool, force: bool, stamp: string,
                          placeholders: bool)
    requires forall i :: 0 <= i < |pairs| ==> LinkInPlace(u, pairs[i])
    ensures var (r, w) := RestoreSpec(u, pairs, dryRun, force, stamp, placeholders);
      && w == u && r.Finished? && r.rc == 0
      && r.counts.skipped == |pairs| && r.counts.linked == 0 && r.counts.conflicts == 0
  {
    var zero := Counts(0, 0, 0);
    RestoreAgainSkipsAll(u, pairs, dryRun, force, stamp, placeholders, zero);
  }
}
