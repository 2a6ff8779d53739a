/** Which (source, target) pairs a restore links, computed from listings
    of the repository: the ignore rules, the mapped base target of each
    top-level entry, and (for `iter_restore_links` only) the whole-directory
    link of a `config__<app>` directory. */
module Listing {
  import opened Strings
  import opened Paths
  import opened Names

  /** Directory names skipped wherever they occur. */
  const IgnoreDirs: set<string> := {"__pycache__", ".git"}

  /** File suffixes skipped. */
  const IgnoreSuffixes: set<string> := {".pyc"}

  /** One entry `rglob("*")` yields below a top-level directory: its path
      relative to that directory, and whether `is_dir()` holds for it. */
  datatype Item = Item(rel: Path, isDir: bool)

  /** One entry of the repository's top level; `items` is the sorted
      recursive listing when it is a directory. */
  datatype Top = Top(name: string, isDir: bool, items: seq<Item>)

  /** A link to make: `target` (in the home directory) -> `source` (in the repository). */
  datatype Pair = Pair(source: Path, target: Path)

  /** Some component of the path is an ignored directory name. */
  predicate AnyIgnored(p: Path)
  {
    exists i :: 0 <= i < |p| && p[i] in IgnoreDirs
  }

  /** The per-entry filter of the recursive walk, for an entry below the
      top-level directory `dir`. */
  predicate KeptItem(dir: Path, it: Item)
  {
    !AnyIgnored(dir + it.rel) && Suffix(Name(dir + it.rel)) !in IgnoreSuffixes && !it.isDir
  }

  /** The pair an entry below `dir` gives: the same relative path under
      the mapped base. */
  function ItemPair(dir: Path, base: Path, it: Item): Pair
  {
    Pair(dir + it.rel, base + it.rel)
  }

  /** The pairs of the recursive walk of one top-level directory. */
  function ItemPairs(dir: Path, base: Path, items: seq<Item>): seq<Pair>
    decreases |items|
  {
    if items == [] then []
    else
      var init := ItemPairs(dir, base, items[..|items| - 1]);
      var it := items[|items| - 1];
      if KeptItem(dir, it) then init + [ItemPair(dir, base, it)] else init
  }

  /** The pairs one top-level entry gives. */
  function TopPairs(root: Path, home: Path, top: Top, wholeConfig: bool): seq<Pair>
  {
    if top.name in IgnoreDirs then []
    else
      var base := home + MapTopLevelToHome(top.name);
      if top.isDir then
        if wholeConfig && StartsWith(top.name, "config__") then [Pair(root + [top.name], base)]
        else ItemPairs(root + [top.name], base, top.items)
      else if Suffix(top.name) in IgnoreSuffixes then []
      else [Pair(root + [top.name], base)]
  }

  /** All pairs, top-level entry by top-level entry. */
  function Pairs(root: Path, home: Path, tops: seq<Top>, wholeConfig: bool): seq<Pair>
    decreases |tops|
  {
    if tops == [] then []
    else Pairs(root, home, tops[..|tops| - 1], wholeConfig) + TopPairs(root, home, tops[|tops| - 1], wholeConfig)
  }

  /** Sources in strictly increasing path order. */
  predicate SortedSources(ps: seq<Pair>)
  {
    forall i, j :: 0 <= i < j < |ps| ==> PathLess(ps[i].source, ps[j].source)
  }

  /** A listing sorted the way `sorted(top.rglob("*"))` leaves it. */
  predicate SortedItems(items: seq<Item>)
  {
    forall i, j :: 0 <= i < j < |items| ==> PathLess(items[i].rel, items[j].rel)
  }

  /** A top level sorted the way `sorted(source_root.iterdir())` leaves it. */
  predicate SortedTops(tops: seq<Top>)
  {
    forall i, j :: 0 <= i < j < |tops| ==> StrLess(tops[i].name, tops[j].name)
  }

  /** The walk emits exactly the kept entries, each at the same relative
      path under the mapped base. */
  lemma {:induction false} ItemPairsExactly(dir: Path, base: Path, items: seq<Item>)
    ensures forall q :: q in ItemPairs(dir, base, items) <==>
      exists it :: it in items && KeptItem(dir, it) && q == ItemPair(dir, base, it)
    decreases |items|
  {
    if items != [] {
      var init := items[..|items| - 1];
      ItemPairsExactly(dir, base, init);
      assert items == init + [items[|items| - 1]];
    }
  }

  /** Each emitted pair comes from an entry at or before its position. */
  lemma {:induction false} ItemPairsIndexed(dir: Path, base: Path, items: seq<Item>)
    ensures forall k :: 0 <= k < |ItemPairs(dir, base, items)| ==>
      exists i :: 0 <= i < |items| && ItemPairs(dir, base, items)[k].source == dir + items[i].rel
    decreases |items|
  {
    if items != [] {
      var init := items[..|items| - 1];
      ItemPairsIndexed(dir, base, init);
      var ps := ItemPairs(dir, base, init);
      var all := ItemPairs(dir, base, items);
      forall k | 0 <= k < |all|
        ensures exists i :: 0 <= i < |items| && all[k].source == dir + items[i].rel
      {
        if k < |ps| {
          assert all[k] == ps[k];
          var i :| 0 <= i < |init| && ps[k].source == dir + init[i].rel;
          assert items[i] == init[i];
        } else {
          assert all[k].source == dir + items[|items| - 1].rel;
        }
      }
    } else {
      assert ItemPairs(dir, base, items) == [];
    }
  }

  /** The walk of a sorted listing emits its sources in order. */
  lemma {:induction false} ItemPairsSorted(dir: Path, base: Path, items: seq<Item>)
    requires SortedItems(items)
    ensures SortedSources(ItemPairs(dir, base, items))
    decreases |items|
  {
    if items != [] {
      var init := items[..|items| - 1];
      var last := items[|items| - 1];
      ItemPairsSorted(dir, base, init);
      if KeptItem(dir, last) {
        var ps := ItemPairs(dir, base, init);
        ItemPairsIndexed(dir, base, init);
        forall k | 0 <= k < |ps| ensures PathLess(ps[k].source, dir + last.rel) {
          var i :| 0 <= i < |init| && ps[k].source == dir + init[i].rel;
          assert init[i] == items[i];
          PathLessPrefix(dir, init[i].rel, last.rel);
        }
      }
    }
  }

  /** Every pair of a top-level entry has its source at or below that entry. */
  lemma TopPairsUnder(root: Path, home: Path, top: Top, wholeConfig: bool)
    ensures forall q :: q in TopPairs(root, home, top, wholeConfig) ==> IsPrefix(root + [top.name], q.source)
  {
    if top.name !in IgnoreDirs && top.isDir && !(wholeConfig && StartsWith(top.name, "config__")) {
      var dir := root + [top.name];
      ItemPairsExactly(dir, dir, []);
      ItemPairsExactly(dir, home + MapTopLevelToHome(top.name), top.items);
    }
  }

  /** The pairs of a top-level entry come out sorted. */
  lemma TopPairsSorted(root: Path, home: Path, top: Top, wholeConfig: bool)
    requires SortedItems(top.items)
    ensures SortedSources(TopPairs(root, home, top, wholeConfig))
  {
    if top.name !in IgnoreDirs && top.isDir && !(wholeConfig && StartsWith(top.name, "config__")) {
      ItemPairsSorted(root + [top.name], home + MapTopLevelToHome(top.name), top.items);
    }
  }

  /** Paths below two differently named siblings compare as the names do. */
  lemma BelowSiblings(root: Path, x: string, y: string, a: Path, b: Path)
    requires StrLess(x, y)
    requires IsPrefix(root + [x], a) && IsPrefix(root + [y], b)
    ensures PathLess(a, b)
  {
    assert a == root + [x] + a[|root| + 1..];
    assert b == root + [y] + b[|root| + 1..];
    PathLessAt(root, x, y, a[|root| + 1..], b[|root| + 1..]);
  }

  /** Every pair so far lies below one of the listed top-level entries. */
  lemma {:induction false} PairsUnder(root: Path, home: Path, tops: seq<Top>, wholeConfig: bool)
    ensures forall q :: q in Pairs(root, home, tops, wholeConfig) ==>
      exists i :: 0 <= i < |tops| && IsPrefix(root + [tops[i].name], q.source)
    decreases |tops|
  {
    if tops != [] {
      var init := tops[..|tops| - 1];
      PairsUnder(root, home, init, wholeConfig);
      TopPairsUnder(root, home, tops[|tops| - 1], wholeConfig);
      forall q | q in Pairs(root, home, init, wholeConfig)
        ensures exists i :: 0 <= i < |tops| && IsPrefix(root + [tops[i].name], q.source)
      {
        var i :| 0 <= i < |init| && IsPrefix(root + [init[i].name], q.source);
        assert tops[i] == init[i];
      }
    }
  }

  /** Joining two sorted runs, the first wholly below the second, keeps
      the order. */
  lemma SortedConcat(a: seq<Pair>, b: seq<Pair>)
    requires SortedSources(a) && SortedSources(b)
    requires forall x, y :: x in a && y in b ==> PathLess(x.source, y.source)
    ensures SortedSources(a + b)
  {
    forall i, j | 0 <= i < j < |a + b| ensures PathLess((a + b)[i].source, (a + b)[j].source) {
      if j < |a| {
        assert (a + b)[i] == a[i] && (a + b)[j] == a[j];
      } else if i >= |a| {
        assert (a + b)[i] == b[i - |a|] && (a + b)[j] == b[j - |a|];
      } else {
        assert (a + b)[i] == a[i] && (a + b)[j] == b[j - |a|];
        assert a[i] in a && b[j - |a|] in b;
      }
    }
  }

  /** With the listings sorted, all pairs come out in sorted source order. */
  lemma {:induction false} PairsSorted(root: Path, home: Path, tops: seq<Top>, wholeConfig: bool)
    requires SortedTops(tops)
    requires forall i :: 0 <= i < |tops| ==> SortedItems(tops[i].items)
    ensures SortedSources(Pairs(root, home, tops, wholeConfig))
    decreases |tops|
  {
    if tops != [] {
      var init := tops[..|tops| - 1];
      var last := tops[|tops| - 1];
      PairsSorted(root, home, init, wholeConfig);
      TopPairsSorted(root, home, last, wholeConfig);
      PairsUnder(root, home, init, wholeConfig);
      TopPairsUnder(root, home, last, wholeConfig);
      var a := Pairs(root, home, init, wholeConfig);
      var b := TopPairs(root, home, last, wholeConfig);
      forall x, y | x in a && y in b ensures PathLess(x.source, y.source) {
        var i :| 0 <= i < |init| && IsPrefix(root + [init[i].name], x.source);
        assert init[i] == tops[i];
        BelowSiblings(root, init[i].name, last.name, x.source, y.source);
      }
      SortedConcat(a, b);
    }
  }

  /** The loop over `sorted(top.rglob("*"))` that `iter_restore_links` and
      `iter_links` share: skips ignored components, ignored suffixes and
      directories. */
  method WalkTop(dir: Path, base: Path, items: seq<Item>) returns (ps: seq<Pair>)
    ensures ps == ItemPairs(dir, base, items)
  {
    ps := [];
    for j := 0 to |items|
      invariant ps == ItemPairs(dir, base, items[..j])
    {
      var it := items[j];
      assert items[..j + 1][..j] == items[..j];
      if AnyIgnored(dir + it.rel) {
        continue;
      }
      if Suffix(Name(dir + it.rel)) in IgnoreSuffixes {
        continue;
      }
      if it.isDir {
        continue;
      }
      ps := ps + [ItemPair(dir, base, it)];
    }
    assert items[..|items|] == items;
  }
}
