/** Absolute paths as sequences of name segments; [] is the root "/".
    Paths here are already normalised the way `os.path.abspath` leaves them. */
module Paths {
  import opened Strings

  type Path = seq<string>

  /** A segment `os.path.abspath` can leave in a path. */
  predicate ProperSegment(s: string)
  {
    s != "" && s != "." && s != ".." && '/' !in s
  }

  predicate Proper(p: Path)
  {
    forall i :: 0 <= i < |p| ==> ProperSegment(p[i])
  }

  /** `path.parent`; the root is its own parent. */
  function Parent(p: Path): (q: Path)
    ensures |q| == if p == [] then 0 else |p| - 1
    ensures q == p[..|q|]
  {
    if p == [] then [] else p[..|p| - 1]
  }

  /** `path.name`. */
  function Name(p: Path): string
  {
    if p == [] then "" else p[|p| - 1]
  }

  /** `a` is `b` or an ancestor of `b` (what `b.relative_to(a)` accepts). */
  predicate IsPrefix(a: Path, b: Path)
  {
    |a| <= |b| && b[..|a|] == a
  }

  lemma PrefixTransitive(a: Path, b: Path, c: Path)
    ensures IsPrefix(a, b) && IsPrefix(b, c) ==> IsPrefix(a, c)
  {
    if IsPrefix(a, b) && IsPrefix(b, c) {
      assert c[..|a|] == c[..|b|][..|a|];
    }
  }

  /** `Path(*parts)` for parts without '/': pathlib drops empty
      and "." segments. */
  function PathOf(parts: seq<string>): (p: Path)
    ensures |p| <= |parts|
    ensures forall i :: 0 <= i < |p| ==> p[i] != "" && p[i] != "."
    decreases |parts|
  {
    if parts == [] then []
    else if parts[0] == "" || parts[0] == "." then PathOf(parts[1..])
    else [parts[0]] + PathOf(parts[1..])
  }

  /** Segments that neither of the dropping rules touches pass through. */
  lemma {:induction false} PathOfKeeps(parts: seq<string>)
    requires forall i :: 0 <= i < |parts| ==> parts[i] != "" && parts[i] != "."
    ensures PathOf(parts) == parts
    decreases |parts|
  {
    if parts != [] {
      PathOfKeeps(parts[1..]);
      assert [parts[0]] + parts[1..] == parts;
    }
  }

  /** `str(path) + sfx` read back as a path: the suffix is glued to the
      last segment (the root gets a new child named sfx). */
  function WithSuffix(p: Path, sfx: string): (q: Path)
    ensures |q| == if p == [] then 1 else |p|
    ensures Parent(q) == Parent(p)
    ensures Name(q) == Name(p) + sfx
  {
    if p == [] then [sfx] else Parent(p) + [Name(p) + sfx]
  }

  /** String order as Python compares str (by code point). */
  predicate StrLess(a: string, b: string)
    decreases |a|
  {
    if a == [] then b != []
    else if b == [] then false
    else if a[0] != b[0] then a[0] < b[0]
    else StrLess(a[1..], b[1..])
  }

  /** Path order as pathlib compares paths: segment by segment. */
  predicate PathLess(a: Path, b: Path)
    decreases |a|
  {
    if a == [] then b != []
    else if b == [] then false
    else if a[0] != b[0] then StrLess(a[0], b[0])
    else PathLess(a[1..], b[1..])
  }

  lemma {:induction false} StrLessIrreflexive(x: string)
    ensures !StrLess(x, x)
    decreases |x|
  {
    if x != [] { StrLessIrreflexive(x[1..]); }
  }

  lemma {:induction false} PathLessPrefix(c: Path, a: Path, b: Path)
    requires PathLess(a, b)
    ensures PathLess(c + a, c + b)
    decreases |c|
  {
    if c != [] {
      assert (c + a)[0] == c[0] == (c + b)[0];
      assert (c + a)[1..] == c[1..] + a;
      assert (c + b)[1..] == c[1..] + b;
      PathLessPrefix(c[1..], a, b);
    } else {
      assert c + a == a && c + b == b;
    }
  }

  /** Paths that differ first in a segment compare by that segment,
      whatever follows. */
  lemma PathLessAt(c: Path, x: string, y: string, a: Path, b: Path)
    requires StrLess(x, y)
    ensures PathLess(c + [x] + a, c + [y] + b)
  {
    StrLessIrreflexive(x);
    assert PathLess([x] + a, [y] + b);
    assert c + [x] + a == c + ([x] + a);
    assert c + [y] + b == c + ([y] + b);
    PathLessPrefix(c, [x] + a, [y] + b);
  }

  predicate SortedPaths(ps: seq<Path>)
  {
    forall i, j :: 0 <= i < j < |ps| ==> PathLess(ps[i], ps[j])
  }
}
