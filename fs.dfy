/** The filesystem as a map from absolute paths to entries, with path
    resolution through symbolic links, the existence and identity tests
    the tool uses, and the system calls it makes, each as a map update. */
module Fs {
  import opened Paths
  import opened Results

  /** A directory entry. Link targets are absolute paths; files carry
      their inode number, so hard links are two keys with one inode. */
  datatype Entry = File(inode: nat) | Dir | Symlink(target: Path)

  /** Every entry except the root, which always exists and is a directory. */
  type Tree = map<Path, Entry>

  /** Errors the system calls report. */
  datatype OsError = NoEntry | AlreadyExists | NotADirectory | NotEmpty | Loop | IntoItself

  /** How deeply symbolic links may nest before resolution gives up. */
  const MaxDepth: nat := 40

  /** `d` is the root or a directory entry. */
  predicate DirAt(t: Tree, d: Path)
  {
    d == [] || (d in t && t[d].Dir?)
  }

  /** Well-formed trees: the parent of every entry is a directory. */
  predicate Valid(t: Tree)
  {
    forall p :: p in t ==> p != [] && DirAt(t, Parent(p))
  }

  /** The target of the link at key `k`, if `k` holds a link. */
  function LinkOf(t: Tree, k: Path): Option<Path>
  {
    if k in t && t[k].Symlink? then Some(t[k].target) else None
  }

  /** Resolves the components `rest` one by one, starting from the
      already-resolved directory `cur`: a component naming a symbolic link
      is replaced by the resolution of the link's target (with one less
      level of nesting allowed); other components, present or not, are
      appended as they are (non-strict resolution). */
  function Walk(t: Tree, cur: Path, rest: Path, depth: nat): Option<Path>
    decreases depth, |rest|
  {
    if rest == [] then Some(cur)
    else
      var next := cur + [rest[0]];
      match LinkOf(t, next)
      case None => Walk(t, next, rest[1..], depth)
      case Some(target) =>
        if depth == 0 then None
        else match Walk(t, [], target, depth - 1)
          case None => None
          case Some(r) => Walk(t, r, rest[1..], depth)
  }

  /** `path.resolve()`; None when links nest too deeply (a loop). */
  function Resolve(t: Tree, p: Path): Option<Path>
  {
    Walk(t, [], p, MaxDepth)
  }

  /** The key a path names without following its last component (what
      `lstat`, `rename`, `rmdir`, `unlink`, `mkdir` and `symlink` act on). */
  function Locate(t: Tree, p: Path): (l: Option<Path>)
    ensures l.Some? ==> |l.value| >= 1 || p == []
    ensures l.Some? && p != [] ==> Name(l.value) == Name(p)
  {
    if p == [] then Some([])
    else match Walk(t, [], Parent(p), MaxDepth)
      case None => None
      case Some(q) => Some(q + [Name(p)])
  }

  /** `path.exists()`: follows links. */
  predicate Exists(t: Tree, p: Path)
  {
    var r := Resolve(t, p);
    r.Some? && (r.value == [] || r.value in t)
  }

  /** `path.is_symlink()`. */
  predicate IsSymlink(t: Tree, p: Path)
  {
    var l := Locate(t, p);
    l.Some? && l.value in t && t[l.value].Symlink?
  }

  /** `path.is_dir()`: follows links. */
  predicate IsDir(t: Tree, p: Path)
  {
    var r := Resolve(t, p);
    r.Some? && DirAt(t, r.value)
  }

  /** `path.exists() or path.is_symlink()`: something is there, perhaps a
      dangling link. */
  predicate Occupied(t: Tree, p: Path)
  {
    Exists(t, p) || IsSymlink(t, p)
  }

  /** Two resolved keys are one file: the same key, or two names of one inode. */
  predicate SameObject(t: Tree, a: Path, b: Path)
  {
    a == b || (a in t && b in t && t[a].File? && t[b].File? && t[a].inode == t[b].inode)
  }

  /** `_is_same_symlink`: target is a link and resolves where source does. */
  predicate IsSameSymlink(t: Tree, target: Path, source: Path)
  {
    IsSymlink(t, target) && Resolve(t, target).Some? && Resolve(t, target) == Resolve(t, source)
  }

  /** `_is_same_file_or_resolves_to_same`: both exist and are the same
      file, by resolution or by `os.path.samefile`. */
  predicate IsSameFile(t: Tree, target: Path, source: Path)
  {
    && Exists(t, target) && Exists(t, source)
    && SameObject(t, Resolve(t, target).value, Resolve(t, source).value)
  }

  /** The identity test is symmetric. */
  lemma IsSameFileSymmetric(t: Tree, a: Path, b: Path)
    ensures IsSameFile(t, a, b) <==> IsSameFile(t, b, a)
  {
  }

  /** `d` has no entries directly inside it (`any(d.iterdir())` is false). */
  predicate NoChildren(t: Tree, d: Path)
  {
    forall k :: k in t ==> !(k != [] && Parent(k) == d)
  }

  /** Walking `a + b` is walking `a`, then `b` from where `a` ended. */
  lemma {:induction false} WalkAppend(t: Tree, cur: Path, a: Path, b: Path, depth: nat)
    ensures Walk(t, cur, a + b, depth) ==
      match Walk(t, cur, a, depth)
      case None => None
      case Some(m) => Walk(t, m, b, depth)
    decreases |a|
  {
    if a == [] {
      assert a + b == b;
    } else {
      assert (a + b)[0] == a[0];
      assert (a + b)[1..] == a[1..] + b;
      var next := cur + [a[0]];
      match LinkOf(t, next)
      case None => WalkAppend(t, next, a[1..], b, depth);
      case Some(target) =>
        if depth > 0 {
          match Walk(t, [], target, depth - 1)
          case None =>
          case Some(r) => WalkAppend(t, r, a[1..], b, depth);
        }
    }
  }

  /** Trees with the same links at the same keys resolve every path alike:
      resolution looks at nothing but links. */
  ghost predicate SameLinks(t: Tree, u: Tree)
  {
    forall k :: LinkOf(t, k) == LinkOf(u, k)
  }

  lemma {:induction false} WalkSameLinks(t: Tree, u: Tree, cur: Path, rest: Path, depth: nat)
    requires SameLinks(t, u)
    ensures Walk(t, cur, rest, depth) == Walk(u, cur, rest, depth)
    decreases depth, |rest|
  {
    if rest != [] {
      var next := cur + [rest[0]];
      assert LinkOf(t, next) == LinkOf(u, next);
      match LinkOf(t, next)
      case None => WalkSameLinks(t, u, next, rest[1..], depth);
      case Some(target) =>
        if depth > 0 {
          WalkSameLinks(t, u, [], target, depth - 1);
          match Walk(t, [], target, depth - 1)
          case None =>
          case Some(r) => WalkSameLinks(t, u, r, rest[1..], depth);
        }
    }
  }

  /** Resolving a path is locating it and then following its last
      component if that is a link. */
  lemma ResolveByLocate(t: Tree, p: Path)
    requires p != []
    ensures Resolve(t, p) ==
      match Locate(t, p)
      case None => None
      case Some(l) =>
        match LinkOf(t, l)
        case Some(target) => Walk(t, [], target, MaxDepth - 1)
        case None => Some(l)
  {
    assert p == Parent(p) + [Name(p)];
    WalkAppend(t, [], Parent(p), [Name(p)], MaxDepth);
  }

  /** A path is occupied exactly when the key it locates is present. */
  lemma OccupiedByLocate(t: Tree, p: Path)
    requires p != []
    ensures Occupied(t, p) <==> Locate(t, p).Some? && Locate(t, p).value in t
  {
    ResolveByLocate(t, p);
  }

  /** Every prefix of `p` is present and none is a link. */
  predicate Plain(t: Tree, p: Path)
  {
    forall k :: 1 <= k <= |p| ==> p[..k] in t && !t[p[..k]].Symlink?
  }

  /** A plain path resolves to itself, at any nesting allowance. */
  lemma {:induction false} WalkPlain(t: Tree, cur: Path, rest: Path, depth: nat)
    requires Plain(t, cur + rest)
    ensures Walk(t, cur, rest, depth) == Some(cur + rest)
    decreases |rest|
  {
    if rest == [] {
      assert cur + rest == cur;
    } else {
      var next := cur + [rest[0]];
      assert (cur + rest)[..|cur| + 1] == next;
      assert LinkOf(t, next) == None;
      assert next + rest[1..] == cur + rest;
      WalkPlain(t, next, rest[1..], depth);
    }
  }

  /** A plain path other than the root resolves and locates to itself. */
  lemma ResolvePlain(t: Tree, p: Path)
    requires Plain(t, p)
    ensures Resolve(t, p) == Some(p)
    ensures p != [] ==> Locate(t, p) == Some(p)
  {
    ResolveSelf(t, p);
    if p != [] {
      PlainParent(t, p);
      LocatePlainParent(t, p);
    }
  }

  /** A plain path resolves to itself. */
  lemma ResolveSelf(t: Tree, p: Path)
    requires Plain(t, p)
    ensures Resolve(t, p) == Some(p)
  {
    assert [] + p == p;
    WalkPlain(t, [], p, MaxDepth);
  }

  /** Below a plain directory, a path locates to itself. */
  lemma LocatePlainParent(t: Tree, p: Path)
    requires p != [] && Plain(t, Parent(p))
    ensures Locate(t, p) == Some(p)
  {
    ResolveSelf(t, Parent(p));
    assert Parent(p) + [Name(p)] == p;
  }

  /** Two trees that agree on every prefix of `p` see `p` equally plain. */
  lemma PlainTransfer(t: Tree, u: Tree, p: Path)
    requires Plain(t, p)
    requires forall k :: 1 <= k <= |p| ==> p[..k] in u && u[p[..k]] == t[p[..k]]
    ensures Plain(u, p)
  {
  }

  /** The parent of a plain path is plain. */
  lemma PlainParent(t: Tree, p: Path)
    requires Plain(t, p)
    ensures Plain(t, Parent(p))
  {
    forall k | 1 <= k <= |Parent(p)| ensures Parent(p)[..k] == p[..k] { }
  }

  /** A path that neither subtree reaches stays plain when `from` moves to `to`. */
  lemma PlainMoved(t: Tree, from: Path, to: Path, p: Path)
    requires Plain(t, p) && !IsPrefix(from, p) && !IsPrefix(to, p)
    ensures Plain(MoveTree(t, from, to), p)
  {
    var u := MoveTree(t, from, to);
    forall k | 1 <= k <= |p| ensures p[..k] in u && u[p[..k]] == t[p[..k]] {
      PrefixTransitive(from, p[..k], p);
      PrefixTransitive(to, p[..k], p);
      MoveTreeKeeps(t, from, to, p[..k]);
    }
    PlainTransfer(t, u, p);
  }

  /** A new entry at a key that is not a prefix of `p` leaves `p` plain. */
  lemma PlainUpdated(t: Tree, key: Path, e: Entry, p: Path)
    requires Plain(t, p) && !IsPrefix(key, p)
    ensures Plain(t[key := e], p)
  {
    var u := t[key := e];
    forall k | 1 <= k <= |p| ensures p[..k] in u && u[p[..k]] == t[p[..k]] {
      assert IsPrefix(p[..k], p);
    }
    PlainTransfer(t, u, p);
  }

  /** A plain parent and an entry that is not a link make a plain path. */
  lemma PlainExtend(t: Tree, p: Path)
    requires p != [] && Plain(t, Parent(p)) && p in t && !t[p].Symlink?
    ensures Plain(t, p)
  {
    forall k | 1 <= k <= |p| ensures p[..k] in t && !t[p[..k]].Symlink? {
      if k < |p| {
        assert p[..k] == Parent(p)[..k];
      } else {
        assert p[..k] == p;
      }
    }
  }

  // ---------------------------------------------------------------
  // System calls as map updates
  // ---------------------------------------------------------------

  /** `os.mkdir` / `os.symlink`: a new entry at the located key; fails if
      something is there, or the parent is missing or not a directory. */
  function CreateSpec(t: Tree, p: Path, e: Entry): (r: Result<Tree, OsError>)
    ensures r.Ok? ==> Locate(t, p).Some? && Locate(t, p).value !in t
    ensures r.Ok? ==> r.value == t[Locate(t, p).value := e]
    ensures r.Ok? ==> DirAt(t, Parent(Locate(t, p).value))
  {
    match Locate(t, p)
    case None => Err(Loop)
    case Some(l) =>
      if l == [] || l in t then Err(AlreadyExists)
      else if DirAt(t, Parent(l)) then Ok(t[l := e])
      else if Parent(l) in t then Err(NotADirectory)
      else Err(NoEntry)
  }

  /** `os.rmdir`: removes an empty directory. */
  function RmdirSpec(t: Tree, p: Path): (r: Result<Tree, OsError>)
    ensures r.Ok? ==> Locate(t, p).Some? && r.value == t - {Locate(t, p).value}
  {
    match Locate(t, p)
    case None => Err(Loop)
    case Some(l) =>
      if l !in t then Err(NoEntry)
      else if !t[l].Dir? then Err(NotADirectory)
      else if !NoChildren(t, l) then Err(NotEmpty)
      else Ok(t - {l})
  }

  /** `os.unlink`: removes a non-directory entry. */
  function UnlinkSpec(t: Tree, p: Path): (r: Result<Tree, OsError>)
    ensures r.Ok? ==> Locate(t, p).Some? && r.value == t - {Locate(t, p).value}
  {
    match Locate(t, p)
    case None => Err(Loop)
    case Some(l) =>
      if l !in t then Err(NoEntry)
      else if t[l].Dir? then Err(NotADirectory)
      else Ok(t - {l})
  }

  /** The path a key under `from` has once `from` is renamed to `to`. */
  function Moved(from: Path, to: Path, k: Path): Path
    requires IsPrefix(from, k)
  {
    to + k[|from|..]
  }

  /** Distinct keys under `from` stay distinct once moved. */
  lemma MovedInjective(from: Path, to: Path)
    ensures forall a, b :: IsPrefix(from, a) && IsPrefix(from, b) && Moved(from, to, a) == Moved(from, to, b) ==> a == b
  {
    forall a, b | IsPrefix(from, a) && IsPrefix(from, b) && Moved(from, to, a) == Moved(from, to, b)
      ensures a == b
    {
      assert a[|from|..] == Moved(from, to, a)[|to|..];
      assert b[|from|..] == Moved(from, to, b)[|to|..];
      assert a == from + a[|from|..];
      assert b == from + b[|from|..];
    }
  }

  /** The tree after the subtree at `from` is renamed to `to`. */
  function MoveTree(t: Tree, from: Path, to: Path): (u: Tree)
    ensures forall k :: k in t && !IsPrefix(from, k) ==> k in u
  {
    var kept := map k | k in t && !IsPrefix(from, k) :: t[k];
    MovedInjective(from, to);
    var moved := map k | k in t && IsPrefix(from, k) :: Moved(from, to, k) := t[k];
    kept + moved
  }

  /** A leaf entry (a file, a link, an empty directory) moves alone. */
  lemma MoveLeaf(t: Tree, from: Path, to: Path)
    requires from in t
    requires forall k :: k in t && IsPrefix(from, k) ==> k == from
    requires !IsPrefix(from, to) && to !in t
    ensures MoveTree(t, from, to) == (t - {from})[to := t[from]]
  {
    var u := MoveTree(t, from, to);
    var w := (t - {from})[to := t[from]];
    assert Moved(from, to, from) == to;
    forall k | k in u ensures k in w && u[k] == w[k] {
      if k in t && !IsPrefix(from, k) {
        assert k != from;
        if k == to { assert false; }
      }
    }
    forall k | k in w ensures k in u {
      if k != to {
        assert k in t && k != from;
        assert !IsPrefix(from, k);
      }
    }
  }

  /** Keys outside both subtrees keep their entries. */
  lemma MoveTreeKeeps(t: Tree, from: Path, to: Path, k: Path)
    requires k in t && !IsPrefix(from, k) && !IsPrefix(to, k)
    ensures k in MoveTree(t, from, to) && MoveTree(t, from, to)[k] == t[k]
  {
    MovedInjective(from, to);
  }

  /** Every key under `from` reappears under `to` with its entry. */
  lemma MoveTreeMoves(t: Tree, from: Path, to: Path, k: Path)
    requires k in t && IsPrefix(from, k)
    ensures Moved(from, to, k) in MoveTree(t, from, to)
    ensures MoveTree(t, from, to)[Moved(from, to, k)] == t[k]
  {
    MovedInjective(from, to);
  }

  /** After the move, a key is an old key outside `from` or lies under `to`. */
  lemma MoveTreeKeys(t: Tree, from: Path, to: Path, k: Path)
    requires k in MoveTree(t, from, to)
    ensures (k in t && !IsPrefix(from, k)) || IsPrefix(to, k)
  {
    MovedInjective(from, to);
    if !(k in t && !IsPrefix(from, k)) {
      var x :| x in t && IsPrefix(from, x) && Moved(from, to, x) == k;
      assert k[..|to|] == to;
    }
  }

  /** A key the move put in place comes from the key under `from` it was moved from. */
  lemma MoveTreeSource(t: Tree, from: Path, to: Path, k: Path)
    requires k in MoveTree(t, from, to) && !(k in t && !IsPrefix(from, k))
    ensures IsPrefix(to, k) && IsPrefix(from, from + k[|to|..])
    ensures from + k[|to|..] in t && MoveTree(t, from, to)[k] == t[from + k[|to|..]]
  {
    MovedInjective(from, to);
    var x :| x in t && IsPrefix(from, x) && Moved(from, to, x) == k;
    assert k[|to|..] == x[|from|..];
    assert x == from + x[|from|..];
  }

  /** Moving a subtree to an empty place and back keeps every entry. */
  lemma MoveTreeBackKeeps(t: Tree, a: Path, b: Path, k: Path)
    requires forall k :: k in t ==> !IsPrefix(b, k)
    requires !IsPrefix(a, b) && !IsPrefix(b, a)
    requires k in t
    ensures k in MoveTree(MoveTree(t, a, b), b, a) && MoveTree(MoveTree(t, a, b), b, a)[k] == t[k]
  {
    var u := MoveTree(t, a, b);
    if IsPrefix(a, k) {
      var m := Moved(a, b, k);
      MoveTreeMoves(t, a, b, k);
      MoveTreeMoves(u, b, a, m);
      assert m[|b|..] == k[|a|..];
      assert Moved(b, a, m) == k;
    } else {
      MoveTreeKeeps(t, a, b, k);
      MoveTreeKeeps(u, b, a, k);
    }
  }

  /** Moving a subtree to an empty place and back adds no key. */
  lemma MoveTreeBackAddsNone(t: Tree, a: Path, b: Path, k: Path)
    requires forall k :: k in t ==> !IsPrefix(b, k)
    requires k in MoveTree(MoveTree(t, a, b), b, a)
    ensures k in t
  {
    var u := MoveTree(t, a, b);
    if !(k in u && !IsPrefix(b, k)) {
      MoveTreeSource(u, b, a, k);
      var y := b + k[|a|..];
      MoveTreeSource(t, a, b, y);
      assert y[|b|..] == k[|a|..];
      assert k == a + k[|a|..];
    } else {
      MoveTreeKeys(t, a, b, k);
    }
  }

  /** Moving a subtree to an empty place and back restores the tree. */
  lemma MoveTreeBack(t: Tree, a: Path, b: Path)
    requires forall k :: k in t ==> !IsPrefix(b, k)
    requires !IsPrefix(a, b) && !IsPrefix(b, a)
    ensures MoveTree(MoveTree(t, a, b), b, a) == t
  {
    var w := MoveTree(MoveTree(t, a, b), b, a);
    forall k | k in t ensures k in w && w[k] == t[k] {
      MoveTreeBackKeeps(t, a, b, k);
    }
    forall k | k in w ensures k in t {
      MoveTreeBackAddsNone(t, a, b, k);
    }
    assert w.Keys == t.Keys;
  }

  /** In a well-formed tree nothing lies under an absent key. */
  lemma {:induction false} NothingUnderAbsent(t: Tree, m: Path, k: Path)
    requires Valid(t) && m != [] && m !in t
    requires k in t
    ensures !IsPrefix(m, k)
    decreases |k|
  {
    if IsPrefix(m, k) {
      assert k != m;
      var pk := Parent(k);
      assert |pk| >= |m| >= 1;
      assert pk in t;
      assert pk[..|m|] == k[..|m|];
      NothingUnderAbsent(t, m, pk);
    }
  }

  /** `os.rename`: moves the entry at `from` (a whole subtree for a
      directory) to the key `to` locates. */
  function RenameSpec(t: Tree, from: Path, to: Path): (r: Result<Tree, OsError>)
  {
    match (Locate(t, from), Locate(t, to))
    case (Some(l), Some(m)) =>
      if l !in t || l == [] then Err(NoEntry)
      else if IsPrefix(l, m) then Err(IntoItself)
      else if m in t || m == [] then Err(AlreadyExists)
      else if !DirAt(t, Parent(m)) then Err(if Parent(m) in t then NotADirectory else NoEntry)
      else Ok(MoveTree(t, l, m))
    case _ => Err(Loop)
  }

  /** Creating an entry keeps the tree well formed. */
  lemma CreateKeepsValid(t: Tree, p: Path, e: Entry)
    requires Valid(t) && CreateSpec(t, p, e).Ok?
    ensures Valid(CreateSpec(t, p, e).value)
  {
    assert Locate(t, p).value != [];
  }

  /** Removing an empty directory keeps the tree well formed. */
  lemma RmdirKeepsValid(t: Tree, p: Path)
    requires Valid(t) && RmdirSpec(t, p).Ok?
    ensures Valid(RmdirSpec(t, p).value)
  {
    var l := Locate(t, p).value;
    assert NoChildren(t, l);
  }

  /** Removing a non-directory keeps the tree well formed: nothing lies
      inside it. */
  lemma UnlinkKeepsValid(t: Tree, p: Path)
    requires Valid(t) && UnlinkSpec(t, p).Ok?
    ensures Valid(UnlinkSpec(t, p).value)
  {
    var l := Locate(t, p).value;
    assert !t[l].Dir?;
  }

  /** Nothing in `t` lies at or below `m`. */
  predicate NothingUnder(t: Tree, m: Path)
  {
    forall j :: j in t ==> !IsPrefix(m, j)
  }

  /** After a rename of `l` to a free `m`, a key that stayed has its
      parent where it was. */
  lemma KeptKeepsParent(t: Tree, l: Path, m: Path, k: Path)
    requires NothingUnder(t, m)
    requires k in t && !IsPrefix(l, k) && k != [] && DirAt(t, Parent(k))
    ensures DirAt(MoveTree(t, l, m), Parent(k))
  {
    if Parent(k) != [] {
      assert !IsPrefix(m, Parent(k));
      MoveTreeKeeps(t, l, m, Parent(k));
    }
  }

  /** After a rename of `l` to a free `m` in a directory, `m`'s parent
      is still a directory. */
  lemma MovedRootParent(t: Tree, l: Path, m: Path)
    requires NothingUnder(t, m) && DirAt(t, Parent(m)) && !IsPrefix(l, m)
    ensures DirAt(MoveTree(t, l, m), Parent(m))
  {
    if Parent(m) != [] {
      assert !IsPrefix(m, Parent(m));
      MoveTreeKeeps(t, l, m, Parent(m));
    }
  }

  /** After a rename of `l` to `m`, a moved key below `m` has for parent
      the moved parent of its old key, a directory when that one was. */
  lemma MovedInnerParent(t: Tree, l: Path, m: Path, k: Path)
    requires IsPrefix(m, k) && k != m
    requires var ps := Parent(l + k[|m|..]); ps in t && ps == l + k[|m|..][..|k| - |m| - 1]
    ensures var ps := Parent(l + k[|m|..]); Parent(k) in MoveTree(t, l, m) && MoveTree(t, l, m)[Parent(k)] == t[ps]
  {
    var x := k[|m|..];
    var ps := Parent(l + x);
    MoveTreeMoves(t, l, m, ps);
    assert Moved(l, m, ps) == Parent(k);
  }

  /** After a rename of `l` to a free `m` in a directory, a key has a
      directory for its parent when its old key had one. */
  lemma MoveKeepsParent(t: Tree, l: Path, m: Path, k: Path)
    requires l != [] && m != [] && DirAt(t, Parent(m)) && !IsPrefix(l, m) && NothingUnder(t, m)
    requires k in MoveTree(t, l, m)
    requires k in t ==> k != [] && DirAt(t, Parent(k))
    requires IsPrefix(m, k) && l + k[|m|..] in t ==> DirAt(t, Parent(l + k[|m|..]))
    ensures k != [] && DirAt(MoveTree(t, l, m), Parent(k))
  {
    MoveTreeKeys(t, l, m, k);
    if k == m {
      MovedRootParent(t, l, m);
    } else if IsPrefix(m, k) {
      MovedBelowParent(t, l, m, k);
    } else {
      KeptKeepsParent(t, l, m, k);
    }
  }

  /** A moved key strictly below `m` has a directory for its parent when
      its old key had one. */
  lemma MovedBelowParent(t: Tree, l: Path, m: Path, k: Path)
    requires l != [] && NothingUnder(t, m)
    requires k in MoveTree(t, l, m) && IsPrefix(m, k) && k != m
    requires l + k[|m|..] in t ==> DirAt(t, Parent(l + k[|m|..]))
    ensures DirAt(MoveTree(t, l, m), Parent(k))
  {
    assert k !in t;
    MoveTreeSource(t, l, m, k);
    var x := k[|m|..];
    assert Parent(l + x) == l + x[..|x| - 1];
    MovedInnerParent(t, l, m, k);
  }

  /** Moving the subtree at `l` to a free `m` in a directory keeps the
      tree well formed. */
  lemma MoveKeepsValid(t: Tree, l: Path, m: Path)
    requires Valid(t) && l in t && m != [] && m !in t && DirAt(t, Parent(m)) && !IsPrefix(l, m)
    ensures Valid(MoveTree(t, l, m))
  {
    forall j | j in t ensures !IsPrefix(m, j) {
      NothingUnderAbsent(t, m, j);
    }
    var u := MoveTree(t, l, m);
    forall k | k in u ensures k != [] && DirAt(u, Parent(k)) {
      MoveKeepsParent(t, l, m, k);
    }
  }

  /** `os.rename` keeps the tree well formed. */
  lemma RenameKeepsValid(t: Tree, from: Path, to: Path)
    requires Valid(t) && RenameSpec(t, from, to).Ok?
    ensures Valid(RenameSpec(t, from, to).value)
  {
    var l := Locate(t, from).value;
    var m := Locate(t, to).value;
    assert RenameSpec(t, from, to) == Ok(MoveTree(t, l, m));
    MoveKeepsValid(t, l, m);
  }

  /** `Path.mkdir(parents=True, exist_ok=True)`: try `os.mkdir`; when the
      parent is missing, make the parent first and try once more; any other
      failure is forgiven when the path is a directory by then. */
  function MkdirSpec(t: Tree, p: Path): (r: Result<Tree, OsError>)
    decreases |p|
  {
    match CreateSpec(t, p, Dir)
    case Ok(u) => Ok(u)
    case Err(NoEntry) =>
      if p == [] then Err(NoEntry)
      else
        (match MkdirSpec(t, Parent(p))
         case Err(e) => Err(e)
         case Ok(t1) =>
           (match CreateSpec(t1, p, Dir)
            case Ok(u) => Ok(u)
            case Err(NoEntry) => Err(NoEntry)
            case Err(e) => if IsDir(t1, p) then Ok(t1) else Err(e)))
    case Err(e) => if IsDir(t, p) then Ok(t) else Err(e)
  }

  /** `u` is `t` with some directories added. */
  ghost predicate AddsDirs(t: Tree, u: Tree)
  {
    && (forall k :: k in t ==> k in u && u[k] == t[k])
    && (forall k :: k in u && k !in t ==> u[k] == Dir)
  }

  /** Making a directory adds directories and nothing else, and keeps the
      tree well-formed. */
  lemma {:induction false} MkdirAddsDirs(t: Tree, p: Path)
    requires MkdirSpec(t, p).Ok?
    ensures AddsDirs(t, MkdirSpec(t, p).value)
    ensures Valid(t) ==> Valid(MkdirSpec(t, p).value)
    decreases |p|
  {
    match CreateSpec(t, p, Dir)
    case Ok(_) =>
      CreateDirAdds(t, p);
    case Err(NoEntry) =>
      MkdirAddsDirs(t, Parent(p));
      var t1 := MkdirSpec(t, Parent(p)).value;
      if CreateSpec(t1, p, Dir).Ok? {
        CreateDirAdds(t1, p);
        AddsDirsTrans(t, t1, CreateSpec(t1, p, Dir).value);
      }
    case Err(_) =>
  }

  /** Creating one directory adds a directory and keeps the tree well formed. */
  lemma CreateDirAdds(t: Tree, p: Path)
    requires CreateSpec(t, p, Dir).Ok?
    ensures AddsDirs(t, CreateSpec(t, p, Dir).value)
    ensures Valid(t) ==> Valid(CreateSpec(t, p, Dir).value)
  {
    var l := Locate(t, p).value;
    assert l != [];
    var u := CreateSpec(t, p, Dir).value;
    assert u == t[l := Dir];
  }

  lemma AddsDirsTrans(a: Tree, b: Tree, c: Tree)
    requires AddsDirs(a, b) && AddsDirs(b, c)
    ensures AddsDirs(a, c)
  {
  }


  lemma CreateDirIsDir(t: Tree, p: Path)
    requires CreateSpec(t, p, Dir).Ok?
    ensures IsDir(CreateSpec(t, p, Dir).value, p)
  {
    var u := CreateSpec(t, p, Dir).value;
    assert SameLinks(t, u) by {
      forall k ensures LinkOf(t, k) == LinkOf(u, k) { }
    }
    WalkSameLinks(t, u, [], Parent(p), MaxDepth);
    ResolveByLocate(u, p);
  }

  /** After `mkdir -p` succeeds the path is a directory, and no link
      anywhere has changed. */
  lemma MkdirMakesDir(t: Tree, p: Path)
    requires MkdirSpec(t, p).Ok?
    ensures SameLinks(t, MkdirSpec(t, p).value)
    ensures IsDir(MkdirSpec(t, p).value, p)
  {
    var u := MkdirSpec(t, p).value;
    MkdirAddsDirs(t, p);
    forall k ensures LinkOf(t, k) == LinkOf(u, k) { }
    match CreateSpec(t, p, Dir)
    case Ok(_) => CreateDirIsDir(t, p);
    case Err(NoEntry) =>
      var t1 := MkdirSpec(t, Parent(p)).value;
      if CreateSpec(t1, p, Dir).Ok? { CreateDirIsDir(t1, p); }
    case Err(_) =>
  }

  /** The filesystem the tool works on: its tree changes only through
      these system calls. */
  class FileSystem {
    var tree: Tree

    constructor (t: Tree)
      ensures tree == t
    {
      tree := t;
    }

    method MkdirParents(p: Path) returns (r: Result<(), OsError>)
      modifies this
      ensures r.Ok? <==> MkdirSpec(old(tree), p).Ok?
      ensures tree == if r.Ok? then MkdirSpec(old(tree), p).value else old(tree)
      ensures r.Err? ==> r.error == MkdirSpec(old(tree), p).error
    {
      match MkdirSpec(tree, p)
      case Ok(u) => tree := u; r := Ok(());
      case Err(e) => r := Err(e);
    }

    method SymlinkTo(p: Path, target: Path) returns (r: Result<(), OsError>)
      modifies this
      ensures r.Ok? <==> CreateSpec(old(tree), p, Entry.Symlink(target)).Ok?
      ensures tree == if r.Ok? then CreateSpec(old(tree), p, Entry.Symlink(target)).value else old(tree)
      ensures r.Err? ==> r.error == CreateSpec(old(tree), p, Entry.Symlink(target)).error
    {
      match CreateSpec(tree, p, Entry.Symlink(target))
      case Ok(u) => tree := u; r := Ok(());
      case Err(e) => r := Err(e);
    }

    method Rmdir(p: Path) returns (r: Result<(), OsError>)
      modifies this
      ensures r.Ok? <==> RmdirSpec(old(tree), p).Ok?
      ensures tree == if r.Ok? then RmdirSpec(old(tree), p).value else old(tree)
      ensures r.Err? ==> r.error == RmdirSpec(old(tree), p).error
    {
      match RmdirSpec(tree, p)
      case Ok(u) => tree := u; r := Ok(());
      case Err(e) => r := Err(e);
    }

    method Unlink(p: Path) returns (r: Result<(), OsError>)
      modifies this
      ensures r.Ok? <==> UnlinkSpec(old(tree), p).Ok?
      ensures tree == if r.Ok? then UnlinkSpec(old(tree), p).value else old(tree)
      ensures r.Err? ==> r.error == UnlinkSpec(old(tree), p).error
    {
      match UnlinkSpec(tree, p)
      case Ok(u) => tree := u; r := Ok(());
      case Err(e) => r := Err(e);
    }

    method Rename(from: Path, to: Path) returns (r: Result<(), OsError>)
      modifies this
      ensures r.Ok? <==> RenameSpec(old(tree), from, to).Ok?
      ensures tree == if r.Ok? then RenameSpec(old(tree), from, to).value else old(tree)
      ensures r.Err? ==> r.error == RenameSpec(old(tree), from, to).error
    {
      match RenameSpec(tree, from, to)
      case Ok(u) => tree := u; r := Ok(());
      case Err(e) => r := Err(e);
    }
  }
}
