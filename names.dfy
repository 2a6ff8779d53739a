/** The naming convention between repository entries and home paths:
    a top-level repository name `a__b__c` stands for the home path
    `.a/b/c`, and stow maps a hidden home path back to a repository path,
    with special cases for `~/.config/<app>` and `~/.local/bin/scripts`. */
module Names {
  import opened Strings
  import opened Paths
  import opened Results

  /** `_map_top_level_to_home` (and `_map_top_level`, its identical twin
      in the older restore script): split on "__", put a dot in front of
      the first piece, and make one path component of each piece. */
  function MapTopLevelToHome(name: string): (r: Path)
    ensures |r| <= |SplitSep(name)|
    ensures forall i :: 0 <= i < |r| ==> r[i] != "" && r[i] != "."
  {
    var parts := SplitSep(name);
    PathOf(["." + parts[0]] + parts[1..])
  }

  /** Pieces that pathlib keeps as they are (the first one is dotted,
      so only its emptiness matters). */
  predicate KeptPieces(parts: seq<string>)
  {
    && (|parts| > 0 ==> parts[0] != "")
    && forall i :: 1 <= i < |parts| ==> parts[i] != "" && parts[i] != "."
  }

  /** When no piece after the first is empty or ".", the mapping makes
      exactly one component per piece, dotting only the first, and the
      pieces joined with "__" are the original name. */
  lemma MapTopLevelOnePerPiece(name: string)
    requires KeptPieces(SplitSep(name))
    ensures var parts := SplitSep(name);
      && MapTopLevelToHome(name) == ["." + parts[0]] + parts[1..]
      && |MapTopLevelToHome(name)| == |parts|
      && JoinSep(parts) == name
  {
    var parts := SplitSep(name);
    var q := ["." + parts[0]] + parts[1..];
    assert q[0] == "." + parts[0];
    assert forall i :: 0 <= i < |q| ==> q[i] != "" && q[i] != "." by {
      forall i | 0 <= i < |q| ensures q[i] != "" && q[i] != "." {
        if i == 0 {
          assert |q[0]| == 1 + |parts[0]| >= 2;
        } else {
          assert q[i] == parts[i];
        }
      }
    }
    PathOfKeeps(q);
    JoinSplit(name);
  }

  /** Ways stow refuses a path. */
  datatype MapError = NotUnderHome | HomeRoot | NotHidden | BareConfig

  /** `repo_dest_for_home_path`: where stow puts a home path inside the
      repository. `homePath` is already made absolute; `home` is the home
      root and `root` the repository root. */
  function RepoDestForHomePath(homePath: Path, home: Path, root: Path): (r: Result<Path, MapError>)
    ensures r.Ok? <==>
      && IsPrefix(home, homePath)
      && |homePath| > |home|
      && StartsWith(homePath[|home|], ".")
      && !(homePath[|home|] == ".config" && |homePath| == |home| + 1)
    ensures r.Ok? ==> IsPrefix(root, r.value)
    ensures r.Err? && IsPrefix(home, homePath) && |homePath| > |home| && StartsWith(homePath[|home|], ".")
      ==> r.error == BareConfig
  {
    if !IsPrefix(home, homePath) then Err(NotUnderHome)
    else
      var rel := homePath[|home|..];
      if rel == [] then Err(HomeRoot)
      else if !StartsWith(rel[0], ".") then Err(NotHidden)
      else if rel[0] == ".config" then
        if |rel| < 2 then Err(BareConfig)
        else Ok(root + PathOf(["config__" + rel[1]] + rel[2..]))
      else if |rel| >= 3 && rel[..3] == [".local", "bin", "scripts"] then
        Ok(root + PathOf(["local__bin__scripts"] + rel[3..]))
      else
        Ok(root + PathOf([rel[0][1..]] + rel[1..]))
  }

  /** A kept first piece in front of proper segments passes through
      `Path(*parts)` unchanged. */
  lemma PathOfKept(x: string, rest: Path)
    requires x != "" && x != "." && Proper(rest)
    ensures PathOf([x] + rest) == [x] + rest
  {
    var parts := [x] + rest;
    forall i | 0 <= i < |parts| ensures parts[i] != "" && parts[i] != "." {
      if i > 0 { assert parts[i] == rest[i - 1]; }
    }
    PathOfKeeps(parts);
  }

  /** The part of `home + [top] + rest` below `home`. */
  lemma BelowHome(home: Path, top: string, rest: Path)
    ensures IsPrefix(home, home + [top] + rest)
    ensures (home + [top] + rest)[|home|..] == [top] + rest
  {
    assert (home + [top] + rest)[..|home|] == home;
  }

  /** `~/.config/<app>/rest` goes to `config__<app>/rest`. */
  lemma RepoDestConfig(home: Path, rest: Path, root: Path)
    requires Proper(rest) && |rest| >= 1
    ensures RepoDestForHomePath(home + [".config"] + rest, home, root) == Ok(root + ["config__" + rest[0]] + rest[1..])
  {
    BelowHome(home, ".config", rest);
    var rel := [".config"] + rest;
    assert rel[1] == rest[0] && rel[2..] == rest[1..];
    assert |"config__" + rest[0]| > 1;
    PathOfKept("config__" + rest[0], rest[1..]);
    assert root + (["config__" + rest[0]] + rest[1..]) == root + ["config__" + rest[0]] + rest[1..];
  }

  /** `~/.local/bin/scripts/rest` goes to `local__bin__scripts/rest`. */
  lemma RepoDestScripts(home: Path, rest: Path, root: Path)
    requires Proper(rest) && |rest| >= 2 && rest[..2] == ["bin", "scripts"]
    ensures RepoDestForHomePath(home + [".local"] + rest, home, root) == Ok(root + ["local__bin__scripts"] + rest[2..])
  {
    BelowHome(home, ".local", rest);
    var rel := [".local"] + rest;
    assert rel[..3] == [".local", "bin", "scripts"] && rel[3..] == rest[2..];
    assert rel[0] != ".config";
    PathOfKept("local__bin__scripts", rest[2..]);
    assert root + (["local__bin__scripts"] + rest[2..]) == root + ["local__bin__scripts"] + rest[2..];
  }

  /** Any other hidden `~/.top/rest` goes to `top/rest`. */
  lemma RepoDestPlain(home: Path, top: string, rest: Path, root: Path)
    requires ProperSegment(top) && StartsWith(top, ".") && Proper(rest)
    requires top != ".config" && !(top == ".local" && |rest| >= 2 && rest[..2] == ["bin", "scripts"])
    ensures RepoDestForHomePath(home + [top] + rest, home, root) == Ok(root + [top[1..]] + rest)
  {
    BelowHome(home, top, rest);
    var rel := [top] + rest;
    if |rest| >= 2 {
      assert rel[..3] == [top, rest[0], rest[1]];
      assert rest[..2] == [rest[0], rest[1]];
    }
    assert rel[1..] == rest;
    assert |top| == 1 ==> top == ".";
    assert top[1..] == "." ==> top == "." + ".";
    PathOfKept(top[1..], rest);
    assert root + ([top[1..]] + rest) == root + [top[1..]] + rest;
  }

  /** The three shapes of a successful mapping, for a normalised home path. */
  lemma RepoDestShapes(home: Path, top: string, rest: Path, root: Path)
    requires ProperSegment(top) && StartsWith(top, ".") && Proper(rest)
    ensures top == ".config" && |rest| >= 1 ==>
      RepoDestForHomePath(home + [top] + rest, home, root) == Ok(root + ["config__" + rest[0]] + rest[1..])
    ensures top == ".local" && |rest| >= 2 && rest[..2] == ["bin", "scripts"] ==>
      RepoDestForHomePath(home + [top] + rest, home, root) == Ok(root + ["local__bin__scripts"] + rest[2..])
    ensures top != ".config" && !(top == ".local" && |rest| >= 2 && rest[..2] == ["bin", "scripts"]) ==>
      RepoDestForHomePath(home + [top] + rest, home, root) == Ok(root + [top[1..]] + rest)
  {
    if top == ".config" {
      if |rest| >= 1 { RepoDestConfig(home, rest, root); }
    } else if top == ".local" && |rest| >= 2 && rest[..2] == ["bin", "scripts"] {
      RepoDestScripts(home, rest, root);
    } else {
      RepoDestPlain(home, top, rest, root);
    }
  }

  /** Three separator-free pieces joined with "__" split back into
      those pieces. */
  lemma SplitThree(a: string, b: string, c: string)
    requires !HasSep(a) && !HasSep(b) && !HasSep(c)
    requires a != [] && a[|a| - 1] != '_' && b != [] && b[|b| - 1] != '_'
    ensures SplitSep(a + "__" + b + "__" + c) == [a, b, c]
  {
    SplitSingle(c);
    SplitAfter(b, c);
    SplitAfter(a, b + "__" + c);
    assert a + "__" + (b + "__" + c) == a + "__" + b + "__" + c;
  }

  /** The pieces of `local__bin__scripts`. */
  lemma ScriptsPieces(name: string, a: string, b: string, c: string)
    requires name == "local__bin__scripts" && a == "local" && b == "bin" && c == "scripts"
    ensures name == a + "__" + b + "__" + c
    ensures !HasSep(a) && !HasSep(b) && !HasSep(c)
    ensures a != [] && a[|a| - 1] != '_' && b != [] && b[|b| - 1] != '_'
  {
  }

  /** `local__bin__scripts` maps to `.local/bin/scripts`. */
  lemma MapScripts(name: string)
    requires name == "local__bin__scripts"
    ensures MapTopLevelToHome(name) == [".local", "bin", "scripts"]
  {
    var a, b, c := "local", "bin", "scripts";
    ScriptsPieces(name, a, b, c);
    SplitThree(a, b, c);
    assert "." + a == ".local";
    PathOfKept("." + a, [b, c]);
    assert ["." + a] + [b, c] == [".local", "bin", "scripts"];
  }



  /** Two separator-free pieces, the first not ending in '_', map to the
      dotted first piece and the second. */
  lemma MapTwoPieces(a: string, b: string)
    requires a != [] && !HasSep(a) && a[|a| - 1] != '_'
    requires ProperSegment(b) && !HasSep(b)
    ensures MapTopLevelToHome(a + "__" + b) == ["." + a, b]
  {
    SplitSingle(b);
    SplitAfter(a, b);
    var parts := SplitSep(a + "__" + b);
    assert parts == [a, b];
    assert ["." + parts[0]] + parts[1..] == ["." + a] + [b];
    assert |"." + a| >= 2;
    PathOfKept("." + a, [b]);
    assert ["." + a] + [b] == ["." + a, b];
  }

  /** `config__<app>` maps to `.config/<app>` for a separator-free app. */
  lemma MapConfig(name: string, app: string)
    requires ProperSegment(app) && !HasSep(app) && name == "config__" + app
    ensures MapTopLevelToHome(name) == [".config", app]
  {
    assert !HasSep("config");
    assert "config" + "__" + app == name;
    MapTwoPieces("config", app);
    assert "." + "config" == ".config";
  }

  /** A proper separator-free name maps to itself with a dot in front. */
  lemma MapPlain(name: string)
    requires ProperSegment(name) && !HasSep(name)
    ensures MapTopLevelToHome(name) == ["." + name]
  {
    SplitSingle(name);
    PathOfKeeps(["." + name]);
  }

  /** `config__<app>` with a proper, separator-free app. */
  predicate IsConfigName(name: string)
  {
    |name| > 8 && name[..8] == "config__" && ProperSegment(name[8..]) && !HasSep(name[8..])
  }

  /** The repository names the round trip holds for: `local__bin__scripts`,
      `config__<app>` for a separator-free app, and any other proper name
      without a separator except `config` (and `local` when the rest goes
      on with `bin/scripts`). */
  predicate Invertible(name: string, rest: Path)
  {
    || name == "local__bin__scripts"
    || IsConfigName(name)
    || (&& ProperSegment(name) && !HasSep(name) && name != "config"
        && !(name == "local" && |rest| >= 2 && rest[..2] == ["bin", "scripts"]))
  }

  /** A dot in front of a proper name gives a proper hidden component. */
  lemma DottedProper(name: string)
    requires ProperSegment(name)
    ensures ProperSegment("." + name) && StartsWith("." + name, ".") && ("." + name)[1..] == name
  {
    var top := "." + name;
    assert top[1..] == name;
    assert forall k :: 0 <= k < |name| ==> top[k + 1] == name[k];
    assert top == "." + "." ==> name == ".";
  }

  /** Stripping the dot of a hidden component other than "..." gives a
      proper, separator-free name. */
  lemma UndottedProper(top: string)
    requires ProperSegment(top) && StartsWith(top, ".") && !HasSep(top) && top != "..."
    ensures ProperSegment(top[1..]) && !HasSep(top[1..]) && "." + top[1..] == top
  {
    var name := top[1..];
    assert top == "." + name;
    assert forall k :: 0 <= k < |name| ==> name[k] == top[k + 1];
    assert forall i :: 0 <= i < |name| && SepAt(name, i) ==> SepAt(top, i + 1);
    assert name == "" ==> top == ".";
    assert name == "." ==> top == "." + ".";
    assert name == ".." ==> top == "." + "..";
  }

  lemma RoundTripScripts(name: string, rest: Path, home: Path, root: Path)
    requires name == "local__bin__scripts" && Proper(rest)
    ensures RepoDestForHomePath(home + MapTopLevelToHome(name) + rest, home, root) == Ok(root + [name] + rest)
  {
    MapScripts(name);
    var r2 := ["bin", "scripts"] + rest;
    assert home + [".local", "bin", "scripts"] + rest == home + [".local"] + r2;
    assert r2[..2] == ["bin", "scripts"] && r2[2..] == rest;
    assert Proper(r2);
    RepoDestScripts(home, r2, root);
  }

  lemma RoundTripConfig(name: string, rest: Path, home: Path, root: Path)
    requires IsConfigName(name) && Proper(rest)
    ensures RepoDestForHomePath(home + MapTopLevelToHome(name) + rest, home, root) == Ok(root + [name] + rest)
  {
    var app := name[8..];
    assert name == "config__" + app;
    MapConfig(name, app);
    var r2 := [app] + rest;
    assert home + [".config", app] + rest == home + [".config"] + r2;
    assert r2[0] == app && r2[1..] == rest;
    assert Proper(r2);
    RepoDestConfig(home, r2, root);
  }

  lemma RoundTripPlain(name: string, rest: Path, home: Path, root: Path)
    requires ProperSegment(name) && !HasSep(name) && name != "config"
    requires !(name == "local" && |rest| >= 2 && rest[..2] == ["bin", "scripts"])
    requires Proper(rest)
    ensures RepoDestForHomePath(home + MapTopLevelToHome(name) + rest, home, root) == Ok(root + [name] + rest)
  {
    MapPlain(name);
    DottedProper(name);
    var top := "." + name;
    assert top == ".config" ==> name == "config";
    assert top == ".local" ==> name == "local";
    RepoDestPlain(home, top, rest, root);
  }

  /** Restore maps a repository path `name/rest` to a home path; for the
      names the convention can express, stow maps that home path back to
      the same repository path. */
  lemma RepoToHomeToRepo(name: string, rest: Path, home: Path, root: Path)
    requires Invertible(name, rest) && Proper(rest)
    ensures RepoDestForHomePath(home + MapTopLevelToHome(name) + rest, home, root) == Ok(root + [name] + rest)
  {
    if name == "local__bin__scripts" {
      RoundTripScripts(name, rest, home, root);
    } else if IsConfigName(name) {
      RoundTripConfig(name, rest, home, root);
    } else {
      RoundTripPlain(name, rest, home, root);
    }
  }

  /** The other direction: stowing a hidden home path and restoring the
      repository path it lands on gives back the same home path, provided
      the component that carries the repository name has no "__" in it. */
  lemma HomeToRepoToHome(home: Path, top: string, rest: Path, root: Path)
    requires ProperSegment(top) && StartsWith(top, ".") && Proper(rest)
    requires top != ".config" || |rest| >= 1
    requires top == ".config" ==> !HasSep(rest[0])
    requires !HasSep(top) && top != "..."
    ensures RepoDestForHomePath(home + [top] + rest, home, root).Ok?
    ensures var dest := RepoDestForHomePath(home + [top] + rest, home, root).value;
      && |dest| > |root|
      && home + MapTopLevelToHome(dest[|root|]) + dest[|root| + 1..] == home + [top] + rest
  {
    RepoDestShapes(home, top, rest, root);
    if top == ".config" {
      BackConfig(home, rest, root);
    } else if top == ".local" && |rest| >= 2 && rest[..2] == ["bin", "scripts"] {
      BackScripts(home, rest, root, "local__bin__scripts");
    } else {
      BackPlain(home, top, rest, root);
    }
  }

  lemma BackConfig(home: Path, rest: Path, root: Path)
    requires Proper(rest) && |rest| >= 1 && !HasSep(rest[0])
    requires RepoDestForHomePath(home + [".config"] + rest, home, root) == Ok(root + ["config__" + rest[0]] + rest[1..])
    ensures var dest := root + ["config__" + rest[0]] + rest[1..];
      home + MapTopLevelToHome(dest[|root|]) + dest[|root| + 1..] == home + [".config"] + rest
  {
    var dest := root + ["config__" + rest[0]] + rest[1..];
    assert dest[|root|] == "config__" + rest[0];
    assert dest[|root| + 1..] == rest[1..];
    MapConfig(dest[|root|], rest[0]);
    assert [".config", rest[0]] + rest[1..] == [".config"] + rest;
  }

  lemma BackScripts(home: Path, rest: Path, root: Path, n: string)
    requires Proper(rest) && |rest| >= 2 && rest[..2] == ["bin", "scripts"]
    requires n == "local__bin__scripts"
    ensures var dest := root + [n] + rest[2..];
      home + MapTopLevelToHome(dest[|root|]) + dest[|root| + 1..] == home + [".local"] + rest
  {
    var dest := root + [n] + rest[2..];
    assert dest[|root|] == n;
    assert dest[|root| + 1..] == rest[2..];
    MapScripts(n);
    assert rest == [rest[0], rest[1]] + rest[2..];
    assert rest[0] == "bin" && rest[1] == "scripts";
    assert [".local", "bin", "scripts"] + rest[2..] == [".local"] + rest;
  }

  lemma BackPlain(home: Path, top: string, rest: Path, root: Path)
    requires ProperSegment(top) && StartsWith(top, ".") && !HasSep(top) && top != "..."
    ensures var dest := root + [top[1..]] + rest;
      home + MapTopLevelToHome(dest[|root|]) + dest[|root| + 1..] == home + [top] + rest
  {
    var dest := root + [top[1..]] + rest;
    assert dest[|root|] == top[1..];
    assert dest[|root| + 1..] == rest;
    UndottedProper(top);
    MapPlain(top[1..]);
  }

  /** A nested name is not recovered: `foo__bar` restores to `.foo/bar`,
      which stow files under `foo/bar`. */
  lemma NestedNameNotRecovered(name: string, home: Path, root: Path)
    requires name == "foo__bar"
    ensures MapTopLevelToHome(name) == [".foo", "bar"]
    ensures RepoDestForHomePath(home + [".foo", "bar"], home, root) == Ok(root + ["foo", "bar"])
  {
    assert !HasSep("foo") && !HasSep("bar");
    assert "foo" + "__" + "bar" == name;
    MapTwoPieces("foo", "bar");
    assert "." + "foo" == ".foo";
    assert home + [".foo", "bar"] == home + [".foo"] + ["bar"];
    RepoDestPlain(home, ".foo", ["bar"], root);
    assert ".foo"[1..] == "foo";
    assert root + ["foo"] + ["bar"] == root + ["foo", "bar"];
  }
}
