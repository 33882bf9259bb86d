/**
 * `CooperativeInstallTask` (rkd_cooperative/tasks.py): split the requested
 * name into a category and a package, list the snippet directories the
 * synchronised repositories hold, pick the one whose last segment is the
 * package, and run the snippet's wizard and installer on it.
 */
module Install {
  import opened Wrappers
  import opened Strings
  import opened Paths
  import opened Processes

  // ---------------------------------------------------------------------
  // Category and package

  /**
   * `extract_category_and_pkg_names`: with at least one `/`, the category
   * is the text before the first `/` and the package is the rest, its
   * further `/`s kept; otherwise there is no category.
   */
  function CategoryAndPackage(name: string): (r: (string, string))
    ensures '/' !in r.0
    ensures EndsWith(name, r.1)
    ensures r.0 != "" ==> name == r.0 + "/" + r.1
  {
    var parts := Split(name, "/");
    SplitPiecesAvoidSeparator(name, "/");
    assert parts[0] in parts;
    ContainsChar(parts[0], '/');
    if |parts| >= 2 then
      JoinSplit(name, "/");
      JoinCons("/", parts[0], parts[1..]);
      assert parts == [parts[0]] + parts[1..];
      (parts[0], Join("/", parts[1..]))
    else ("", name)
  }

  /** A name without `/` has no category and is the package itself. */
  lemma NameWithoutCategory(name: string)
    requires '/' !in name
    ensures CategoryAndPackage(name) == ("", name)
  {
    SplitCountChar(name, '/');
  }

  /** A category `c` without `/` and any package `p` are recovered from `c/p`. */
  lemma {:induction false} CategoryAndPackageOf(c: string, p: string)
    requires '/' !in c
    ensures CategoryAndPackage(c + "/" + p) == (c, p)
  {
    ContainsChar(c, '/');
    assert "/"[..0] == "" && c + "" == c;
    SplitAfterPrefix(c, "/", p);
    var parts := Split(c + "/" + p, "/");
    assert parts[1..] == Split(p, "/");
    JoinSplit(p, "/");
  }

  /**
   * A name with a `/` is the category, a `/` and the package, and the
   * category holds no `/`.
   */
  lemma {:induction false} CategoryAndPackageRejoin(name: string)
    requires '/' in name
    ensures var (c, p) := CategoryAndPackage(name);
      c + "/" + p == name && '/' !in c
  {
    var n := FirstMatch(name, "/");
    ContainsChar(name, '/');
    FirstMatchFindsOccurrence(name, "/");
    CutAtMatch(name, "/", n);
    var c, p := name[..n], name[n + 1..];
    assert '/' !in c by {
      forall i | 0 <= i < |c|
        ensures c[i] != '/'
      {
        assert !MatchAt(name, "/", i);
        assert name[i..i + 1] == [c[i]];
      }
    }
    CategoryAndPackageOf(c, p);
  }

  /** The names of the repository's tests: `harbor/redis`, `redis` and `harbor/db/kv/redis`. */
  lemma CategoryAndPackageExamples()
    ensures CategoryAndPackage("harbor" + "/" + "redis") == ("harbor", "redis")
    ensures CategoryAndPackage("redis") == ("", "redis")
    ensures CategoryAndPackage("harbor" + "/" + "db/kv/redis") == ("harbor", "db/kv/redis")
  {
    CategoryAndPackageOf("harbor", "redis");
    NameWithoutCategory("redis");
    CategoryAndPackageOf("harbor", "db/kv/redis");
  }

  // ---------------------------------------------------------------------
  // Listing the snippets

  const SnippetsPrefix := ".rkd/cooperative/**/snippets/"
  const SnippetsSuffix := "**/snippet.json"

  /** The glob pattern of `list_snippets`: the category's directory is searched only when one is given. */
  function GlobPattern(category: string): (pattern: string)
    ensures StartsWith(pattern, SnippetsPrefix) && EndsWith(pattern, SnippetsSuffix)
  {
    SnippetsPrefix + (if category != "" then category + "/" else "") + SnippetsSuffix
  }

  /** Different categories search different patterns, and no category searches every `snippets` directory. */
  lemma {:induction false} GlobPatternInjective(a: string, b: string)
    ensures GlobPattern(a) == GlobPattern(b) <==> a == b
  {
    if GlobPattern(a) == GlobPattern(b) {
      var pre, suf := |SnippetsPrefix|, |SnippetsSuffix|;
      var ia := if a != "" then a + "/" else "";
      var ib := if b != "" then b + "/" else "";
      assert |ia| == |ib|;
      assert GlobPattern(a)[pre..|GlobPattern(a)| - suf] == ia;
      assert GlobPattern(b)[pre..|GlobPattern(b)| - suf] == ib;
      if a != "" {
        assert ia[..|a|] == a && ib[..|b|] == b;
      }
    }
  }

  /** No string occurs twice. */
  predicate NoDuplicates(s: seq<string>) {
    forall i, j :: 0 <= i < j < |s| ==> s[i] != s[j]
  }

  /** `list(set(s))`, keeping each string at its first occurrence. */
  function Dedup(s: seq<string>): (r: seq<string>)
    ensures NoDuplicates(r)
    ensures forall x :: x in r <==> x in s
  {
    if s == [] then []
    else
      var r := Dedup(s[..|s| - 1]);
      assert forall x :: x in s <==> x in s[..|s| - 1] || x == s[|s| - 1];
      if s[|s| - 1] in r then r else r + [s[|s| - 1]]
  }

  /**
   * `list_snippets`: the directories of the `snippet.json` files that
   * `glob` finds for the category's pattern, each once. `glob` is the
   * filesystem search, an input here.
   */
  function ListSnippets(category: string, glob: string -> seq<string>): (dirs: seq<string>)
    ensures NoDuplicates(dirs)
    ensures forall d :: d in dirs <==> exists p :: p in glob(GlobPattern(category)) && Dirname(p) == d
  {
    var found := glob(GlobPattern(category));
    var parents := seq(|found|, i requires 0 <= i < |found| => Dirname(found[i]));
    assert forall d :: d in parents <==> exists p :: p in found && Dirname(p) == d by {
      forall d | exists p :: p in found && Dirname(p) == d
        ensures d in parents
      {
        var p :| p in found && Dirname(p) == d;
        var i :| 0 <= i < |found| && found[i] == p;
        assert parents[i] == d;
      }
    }
    Dedup(parents)
  }

  // ---------------------------------------------------------------------
  // Finding the snippet

  /** The listed paths whose last segment is `name`, in order. */
  function Matches(name: string, snippets: seq<string>): seq<string> {
    if snippets == [] then []
    else
      var last := snippets[|snippets| - 1];
      Matches(name, snippets[..|snippets| - 1]) + if Basename(last) == name then [last] else []
  }

  /** The matches are exactly the listed paths whose last segment is the name. */
  lemma {:induction false} MatchesAre(name: string, snippets: seq<string>)
    ensures forall p :: p in Matches(name, snippets) <==> p in snippets && Basename(p) == name
  {
    if snippets != [] {
      var n := |snippets| - 1;
      MatchesAre(name, snippets[..n]);
      assert snippets == snippets[..n] + [snippets[n]];
    }
  }

  /** Matching distributes over the concatenation of listings. */
  lemma {:induction false} MatchesAppend(name: string, a: seq<string>, b: seq<string>)
    ensures Matches(name, a + b) == Matches(name, a) + Matches(name, b)
    decreases |b|
  {
    if b != [] {
      var n := |b| - 1;
      var last := if Basename(b[n]) == name then [b[n]] else [];
      assert (a + b)[..|a + b| - 1] == a + b[..n] && (a + b)[|a + b| - 1] == b[n];
      assert Matches(name, a + b) == Matches(name, a + b[..n]) + last;
      assert Matches(name, b) == Matches(name, b[..n]) + last;
      MatchesAppend(name, a, b[..n]);
      assert Matches(name, a) + Matches(name, b[..n]) + last == Matches(name, a) + (Matches(name, b[..n]) + last);
    } else {
      assert a + b == a;
    }
  }

  /**
   * What `find_snippet_path` returns: `None` without a match, the match
   * when there is exactly one, and `''` when there are several.
   */
  function SnippetPathOf(name: string, snippets: seq<string>): (found: Option<string>)
    ensures found == None <==> forall i :: 0 <= i < |snippets| ==> Basename(snippets[i]) != name
    ensures found.Some? && found.value != "" ==> found.value in snippets && Basename(found.value) == name
  {
    var m := Matches(name, snippets);
    MatchesAre(name, snippets);
    assert m != [] ==> m[0] in m;
    OutcomeOf(m)
  }

  /** `None` for no match, the match for one, `''` for more. */
  function OutcomeOf(matches: seq<string>): Option<string> {
    if |matches| == 0 then None else if |matches| == 1 then Some(matches[0]) else Some("")
  }

  /** Two duplicate-free sequences of the same strings have the same outcome. */
  lemma OutcomeIgnoresOrder(ma: seq<string>, mb: seq<string>)
    requires NoDuplicates(ma) && NoDuplicates(mb)
    requires forall x :: x in ma <==> x in mb
    ensures OutcomeOf(ma) == OutcomeOf(mb)
  {
    DistinctCount(ma);
    DistinctCount(mb);
    assert (set x | x in ma) == (set x | x in mb);
    if |ma| == 1 {
      assert ma[0] in mb;
    }
  }

  /** A listing without duplicates has as many elements as its set. */
  lemma {:induction false} DistinctCount(s: seq<string>)
    requires NoDuplicates(s)
    ensures |set x | x in s| == |s|
  {
    if s != [] {
      var n := |s| - 1;
      DistinctCount(s[..n]);
      assert (set x | x in s) == (set x | x in s[..n]) + {s[n]};
      assert s[n] !in (set x | x in s[..n]);
    }
  }

  /** The matches of a listing without duplicates have no duplicates. */
  lemma {:induction false} MatchesDistinct(name: string, s: seq<string>)
    requires NoDuplicates(s)
    ensures NoDuplicates(Matches(name, s))
  {
    if s != [] {
      var n := |s| - 1;
      MatchesDistinct(name, s[..n]);
      MatchesAre(name, s[..n]);
    }
  }

  /**
   * `list(set(...))` has no fixed order, but the result does not depend on
   * it: two listings without duplicates that hold the same paths find the
   * same snippet path.
   */
  lemma {:induction false} SnippetPathIgnoresOrder(name: string, a: seq<string>, b: seq<string>)
    requires NoDuplicates(a) && NoDuplicates(b)
    requires forall x :: x in a <==> x in b
    ensures SnippetPathOf(name, a) == SnippetPathOf(name, b)
  {
    MatchesAre(name, a);
    MatchesAre(name, b);
    MatchesDistinct(name, a);
    MatchesDistinct(name, b);
    OutcomeIgnoresOrder(Matches(name, a), Matches(name, b));
  }

  /** A package name with a `/` is never found: a last segment holds no `/`. */
  lemma NameWithSlashNotFound(name: string, snippets: seq<string>)
    requires '/' in name
    ensures SnippetPathOf(name, snippets) == None
  {
    MatchesAre(name, snippets);
    if Matches(name, snippets) != [] {
      assert Matches(name, snippets)[0] in Matches(name, snippets);
    }
  }

  /** Exactly one listed position whose last segment is the name: that path is found. */
  lemma {:induction false} UniqueMatchFound(name: string, snippets: seq<string>, k: nat)
    requires k < |snippets| && Basename(snippets[k]) == name
    requires forall i :: 0 <= i < |snippets| && i != k ==> Basename(snippets[i]) != name
    ensures SnippetPathOf(name, snippets) == Some(snippets[k])
  {
    var before, after := snippets[..k], snippets[k + 1..];
    assert snippets == before + [snippets[k]] + after;
    MatchesAppend(name, before + [snippets[k]], after);
    MatchesAppend(name, before, [snippets[k]]);
    assert [snippets[k]][..0] == [];
    forall i | 0 <= i < |before|
      ensures Basename(before[i]) != name
    {
      assert before[i] == snippets[i];
    }
    forall i | 0 <= i < |after|
      ensures Basename(after[i]) != name
    {
      assert after[i] == snippets[k + 1 + i];
    }
    assert SnippetPathOf(name, before) == None && SnippetPathOf(name, after) == None;
  }

  /**
   * Two listed positions whose last segment is the name make the match
   * ambiguous: `''` is returned (the same package in two repositories).
   */
  lemma {:induction false} TwoMatchesAmbiguous(name: string, snippets: seq<string>, i: nat, j: nat)
    requires i < j < |snippets|
    requires Basename(snippets[i]) == name && Basename(snippets[j]) == name
    ensures SnippetPathOf(name, snippets) == Some("")
  {
    var a, b, c := snippets[..i + 1], snippets[i + 1..j + 1], snippets[j + 1..];
    assert snippets == a + b + c;
    MatchesAppend(name, a + b, c);
    MatchesAppend(name, a, b);
    LastHitMatches(name, a);
    LastHitMatches(name, b);
  }

  /** A listing whose last path has the name as last segment has a match. */
  lemma LastHitMatches(name: string, a: seq<string>)
    requires a != [] && Basename(a[|a| - 1]) == name
    ensures |Matches(name, a)| >= 1
  {
  }

  /**
   * `find_snippet_path`: walk the listed snippet directories and keep the
   * one whose last segment is `name`; a second match makes the search
   * ambiguous and it gives up with `''`.
   */
  method FindSnippetPath(name: string, category: string, glob: string -> seq<string>) returns (found: Option<string>)
    ensures found == SnippetPathOf(name, ListSnippets(category, glob))
  {
    var snippets := ListSnippets(category, glob);
    found := None;
    for i := 0 to |snippets|
      invariant |Matches(name, snippets[..i])| <= 1
      invariant found == if Matches(name, snippets[..i]) == [] then None else Some(Matches(name, snippets[..i])[0])
    {
      assert snippets[..i + 1][..i] == snippets[..i];
      if Basename(snippets[i]) == name {
        if found.Some? {
          assert snippets == snippets[..i + 1] + snippets[i + 1..];
          MatchesAppend(name, snippets[..i + 1], snippets[i + 1..]);
          return Some("");
        }
        found := Some(snippets[i]);
      }
    }
    assert snippets[..|snippets|] == snippets;
  }

  // ---------------------------------------------------------------------
  // Installing

  /** The `CalledProcessError` that leaves `execute` through its `try`/`finally`. */
  datatype InstallError = CalledProcessError(cmd: Command)

  /** `rkd :snippet:wizard <path>` and then `rkd :snippet:install <path>`. */
  function InstallCommands(path: string): seq<Command> {
    [Exec(["rkd", ":snippet:wizard", path]), Exec(["rkd", ":snippet:install", path])]
  }

  /** `if not path`: both `None` and `''` mean that no snippet was found. */
  predicate Found(path: Option<string>) {
    path.Some? && path.value != ""
  }

  /**
   * The outcome of install `execute` for the snippet path found: `false`
   * when none was found; otherwise the wizard and the installer run in
   * turn, and the first failure is raised.
   */
  function InstallOf(path: Option<string>, failing: set<Command>): (r: Result<bool, InstallError>)
    ensures r == Success(true) <==> Found(path) && AllSucceed(InstallCommands(path.value), failing)
    ensures r == Success(false) <==> !Found(path)
    ensures r.Failure? ==> Found(path) && r.error.cmd in failing && r.error.cmd in InstallCommands(path.value)
  {
    if !Found(path) then Success(false)
    else
      var planned := InstallCommands(path.value);
      var issued := RunUntilFailure(planned, failing);
      if AllSucceed(planned, failing) then Success(true) else Failure(CalledProcessError(issued[|issued| - 1]))
  }

  /**
   * An install whose snippet was found runs the wizard before the
   * installer, and the installer only when the wizard succeeded; the
   * error names the command that failed.
   */
  lemma InstallRunsWizardFirst(path: string, failing: set<Command>)
    requires path != ""
    ensures var wizard := Exec(["rkd", ":snippet:wizard", path]);
      var install := Exec(["rkd", ":snippet:install", path]);
      && RunUntilFailure(InstallCommands(path), failing) == (if wizard in failing then [wizard] else [wizard, install])
      && InstallOf(Some(path), failing) ==
        if wizard in failing then Failure(CalledProcessError(wizard))
        else if install in failing then Failure(CalledProcessError(install))
        else Success(true)
  {
    var planned := InstallCommands(path);
    if planned[0] in failing {
      RunUntilFailureIs(planned, failing, 0);
    } else if planned[1] in failing {
      RunUntilFailureIs(planned, failing, 1);
    } else {
      RunUntilFailureIs(planned, failing, 2);
    }
  }

  /** Nothing found, or an ambiguous name, installs nothing and answers `false`. */
  lemma NotFoundInstallsNothing(path: Option<string>, failing: set<Command>)
    requires path == None || path == Some("")
    ensures InstallOf(path, failing) == Success(false)
  {
  }

  /**
   * `CooperativeInstallTask.execute` for the argument `name`, with the
   * outside world `host` and the filesystem search `glob`.
   */
  method Execute(host: Host, name: string, glob: string -> seq<string>) returns (r: Result<bool, InstallError>)
    modifies host`log
    ensures var (category, pkg) := CategoryAndPackage(name);
      var path := SnippetPathOf(pkg, ListSnippets(category, glob));
      && r == InstallOf(path, host.failing)
      && host.log == old(host.log) + (if Found(path) then RunUntilFailure(InstallCommands(path.value), host.failing) else [])
  {
    var (category, pkg) := CategoryAndPackage(name);
    var path := FindSnippetPath(pkg, category, glob);
    if path.None? || path.value == "" {
      return Success(false);
    }
    r := RunInstall(host, path.value);
  }

  /**
   * The `try` of install `execute`: the wizard and then the installer, the
   * first `CalledProcessError` leaving the method.
   */
  method RunInstall(host: Host, path: string) returns (r: Result<bool, InstallError>)
    requires path != ""
    modifies host`log
    ensures r == InstallOf(Some(path), host.failing)
    ensures host.log == old(host.log) + RunUntilFailure(InstallCommands(path), host.failing)
  {
    ghost var planned := InstallCommands(path);
    var wizard := Exec(["rkd", ":snippet:wizard", path]);
    var ok := host.Run(wizard);
    if !ok {
      RunUntilFailureIs(planned, host.failing, 0);
      return Failure(CalledProcessError(wizard));
    }
    var install := Exec(["rkd", ":snippet:install", path]);
    ok := host.Run(install);
    RunUntilFailureIs(planned, host.failing, if ok then 2 else 1);
    if !ok {
      return Failure(CalledProcessError(install));
    }
    return Success(true);
  }
}
