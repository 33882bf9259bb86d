/**
 * `CooperativeSyncTask` (rkd_cooperative/tasks.py): derive a local
 * directory from each git URL, clone the repository there the first time
 * and update it afterwards, and report whether every repository synced.
 */
module Sync {
  import opened Wrappers
  import opened Strings
  import opened Paths
  import opened Processes
  import opened Repositories

  /** The exception `extract_repository_name_from_git_url` raises. */
  datatype SyncError = MalformedGitUrl(url: string)

  const RepositoriesDirectory := ".rkd/cooperative"

  // ---------------------------------------------------------------------
  // Repository identifier

  /** `parts[0].isdecimal()` drops a leading `port/` component. */
  function WithoutPort(name: string): (r: string)
    ensures EndsWith(name, r)
  {
    var parts := Split(name, "/");
    if IsDecimal(parts[0]) then
      JoinSplit(name, "/");
      if |parts| >= 2 then
        JoinCons("/", parts[0], parts[1..]);
        assert parts == [parts[0]] + parts[1..];
        Join("/", parts[1..])
      else ""
    else name
  }

  /** Removes one trailing `.git`. */
  function WithoutGitSuffix(name: string): (r: string)
    ensures r + ".git" == name || (r == name && !EndsWith(name, ".git"))
  {
    if EndsWith(name, ".git") then name[..|name| - 4] else name
  }

  /**
   * `extract_repository_name_from_git_url`: the URL path of an `http…` URL
   * without its leading `/`; `''` for an empty URL; the basename of an
   * existing directory (`os.path.isdir` is membership of `dirs`); otherwise
   * an SCP or ssh URL, whose text after the first five characters is split
   * on `:` and whose second segment is the name, without a numeric port
   * component and without `.git`.
   */
  function RepositoryName(url: string, dirs: set<string>): (r: Result<string, SyncError>)
    ensures r.Failure? ==> r.error == MalformedGitUrl(url) && !StartsWith(url, "http") && url != "" && url !in dirs
  {
    if StartsWith(url, "http") then Success(Drop(UrlPath(url), 1))
    else if url == "" then Success("")
    else if url in dirs then Success(Basename(url))
    else
      var separated := Split(Drop(url, 5), ":");
      if |separated| < 2 then Failure(MalformedGitUrl(url))
      else Success(WithoutGitSuffix(WithoutPort(separated[1])))
  }

  /**
   * An `http` or `https` URL `scheme://host/path` names the repository by
   * its path: a `:port` in the host does not appear in the name.
   */
  lemma HttpUrlName(scheme: string, host: string, path: string, dirs: set<string>)
    requires StartsWith(scheme, "http")
    requires forall i :: 0 <= i < |scheme| ==> IsSchemeChar(scheme[i])
    requires '/' !in host && '?' !in host && '#' !in host
    requires ';' !in path && '?' !in path && '#' !in path
    ensures RepositoryName(scheme + "://" + host + "/" + path, dirs) == Success(path)
  {
    var url := scheme + "://" + host + "/" + path;
    assert url[..4] == scheme[..4];
    UrlPathOfHierarchicalUrl(scheme, host, path);
    assert Drop("/" + path, 1) == path;
  }

  /** An `http…` URL is named by its URL path without the leading character. */
  lemma HttpName(scheme: string, host: string, path: string, dirs: set<string>)
    requires StartsWith(scheme, "http")
    ensures var url := scheme + "://" + host + "/" + path;
      RepositoryName(url, dirs) == Success(Drop(UrlPath(url), 1))
  {
    var url := scheme + "://" + host + "/" + path;
    assert url == scheme + ("://" + host + "/" + path);
    StartsWithConcat(scheme, "://" + host + "/" + path, "http");
  }

  /**
   * The `;params` of the last path segment of an `http` or `https` URL are
   * not part of the name.
   */
  lemma HttpUrlWithParamsName(scheme: string, host: string, lead: string, seg: string, params: string, dirs: set<string>)
    requires StartsWith(scheme, "http") && (AsciiLower(scheme) == "http" || AsciiLower(scheme) == "https")
    requires forall i :: 0 <= i < |scheme| ==> IsSchemeChar(scheme[i])
    requires '/' !in host && '?' !in host && '#' !in host
    requires lead == "" || lead[|lead| - 1] == '/'
    requires '/' !in seg && ';' !in seg && '/' !in params
    requires '?' !in lead + seg + ";" + params && '#' !in lead + seg + ";" + params
    ensures RepositoryName(scheme + "://" + host + "/" + (lead + seg + ";" + params), dirs) == Success(lead + seg)
  {
    assert scheme[0] == scheme[..4][0] == 'h';
    UrlPathDropsParams(scheme, host, lead, seg, params);
    HttpName(scheme, host, lead + seg + ";" + params, dirs);
  }

  /** An empty URL names the empty identifier. */
  lemma EmptyUrlName(dirs: set<string>)
    ensures RepositoryName("", dirs) == Success("")
  {
  }

  /** An existing directory that is not an `http…` URL is named by its last path segment. */
  lemma LocalDirectoryName(dir: string, name: string, dirs: set<string>)
    requires !StartsWith(dir + "/" + name, "http")
    requires '/' !in name
    requires dir + "/" + name in dirs
    ensures RepositoryName(dir + "/" + name, dirs) == Success(name)
  {
    BasenameAfterSlash(dir, name);
  }

  /** An existing directory without `/` that is not `http…` is named by its own text. */
  lemma LocalSegmentName(url: string, dirs: set<string>)
    requires url != "" && !StartsWith(url, "http") && '/' !in url && url in dirs
    ensures RepositoryName(url, dirs) == Success(url)
  {
    BasenameOfSegment(url);
  }

  /** Splitting `host:rest` on `:` gives `host` and `rest` when neither has a `:`. */
  lemma SplitHostAndPath(host: string, rest: string)
    requires ':' !in host && ':' !in rest
    ensures Split(host + ":" + rest, ":") == [host, rest]
  {
    ContainsChar(host, ':');
    ContainsChar(rest, ':');
    assert ":"[..0] == "" && host + "" == host;
    SplitAfterPrefix(host, ":", rest);
    SplitWithout(rest, ":");
  }

  /** A first component that is not a number stays in the identifier. */
  lemma {:induction false} WithoutPortKeeps(first: string, rest: string)
    requires '/' !in first && !IsDecimal(first)
    ensures WithoutPort(first + "/" + rest) == first + "/" + rest
  {
    ContainsChar(first, '/');
    assert "/"[..0] == "" && first + "" == first;
    SplitAfterPrefix(first, "/", rest);
  }

  /** A name of one component is kept, unless it is a number, which is dropped whole. */
  lemma WithoutPortOfSegment(name: string)
    requires '/' !in name
    ensures WithoutPort(name) == if IsDecimal(name) then "" else name
  {
    ContainsChar(name, '/');
    SplitWithout(name, "/");
  }

  /** A numeric first component is dropped together with its `/`. */
  lemma {:induction false} WithoutPortDrops(port: string, rest: string)
    requires IsDecimal(port)
    ensures WithoutPort(port + "/" + rest) == rest
  {
    assert '/' !in port;
    ContainsChar(port, '/');
    assert "/"[..0] == "" && port + "" == port;
    SplitAfterPrefix(port, "/", rest);
    JoinSplit(rest, "/");
  }

  /** Exactly one trailing `.git` is removed. */
  lemma WithoutGitSuffixRemovesOne(name: string)
    ensures WithoutGitSuffix(name + ".git") == name
    ensures !EndsWith(name, ".git") ==> WithoutGitSuffix(name) == name
  {
    assert (name + ".git")[|name|..] == ".git";
  }

  /**
   * An SCP-style or ssh URL `prefix host:name` (with a five-character
   * `prefix` such as `git@g` or `ssh:/`) that is not a directory is named by
   * `name`, without a leading numeric component and without `.git`.
   */
  lemma {:induction false} ScpRepositoryName(prefix: string, host: string, name: string, dirs: set<string>)
    requires |prefix| == 5 && !StartsWith(prefix, "http")
    requires ':' !in host && ':' !in name
    requires prefix + host + ":" + name !in dirs
    ensures RepositoryName(prefix + host + ":" + name, dirs) == Success(WithoutGitSuffix(WithoutPort(name)))
  {
    var url := prefix + host + ":" + name;
    assert url[..4] == prefix[..4];
    assert Drop(url, 5) == host + ":" + name;
    SplitHostAndPath(host, name);
  }

  /**
   * Further `:`-separated segments after the name are ignored: `prefix
   * host:name:tail` is named as `prefix host:name` is.
   */
  lemma {:induction false} ScpRepositoryNameWithTail(prefix: string, host: string, name: string, tail: string, dirs: set<string>)
    requires |prefix| == 5 && !StartsWith(prefix, "http")
    requires ':' !in host && ':' !in name
    requires prefix + host + ":" + name + ":" + tail !in dirs
    ensures RepositoryName(prefix + host + ":" + name + ":" + tail, dirs) == Success(WithoutGitSuffix(WithoutPort(name)))
  {
    var url := prefix + host + ":" + name + ":" + tail;
    assert url[..4] == prefix[..4];
    ScpSegmentsAfterName(prefix, host, name, tail);
  }

  /**
   * An SCP or ssh URL whose name has no `/` is named by it without `.git`,
   * and a numeric name (a port with nothing after it) gives `''`.
   */
  lemma {:induction false} ScpSegmentName(prefix: string, host: string, name: string, dirs: set<string>)
    requires |prefix| == 5 && !StartsWith(prefix, "http")
    requires ':' !in host && ':' !in name && '/' !in name
    requires prefix + host + ":" + name !in dirs
    ensures RepositoryName(prefix + host + ":" + name, dirs) ==
      Success(if IsDecimal(name) then "" else WithoutGitSuffix(name))
  {
    ScpRepositoryName(prefix, host, name, dirs);
    WithoutPortOfSegment(name);
  }

  /** A further `:` and whatever follows it do not change the second segment. */
  lemma {:induction false} ScpSegmentsAfterName(prefix: string, host: string, name: string, tail: string)
    requires |prefix| == 5
    requires ':' !in host && ':' !in name
    ensures var separated := Split(Drop(prefix + host + ":" + name + ":" + tail, 5), ":");
      |separated| >= 2 && separated[1] == name
  {
    var url := prefix + host + ":" + name + ":" + tail;
    assert Drop(url, 5) == host + ":" + (name + ":" + tail);
    ContainsChar(host, ':');
    ContainsChar(name, ':');
    assert ":"[..0] == "" && host + "" == host && name + "" == name;
    SplitAfterPrefix(host, ":", name + ":" + tail);
    SplitAfterPrefix(name, ":", tail);
  }

  /** `org/repo` with an optional `.git` becomes `org/repo` when `org` is not a number. */
  lemma {:induction false} OrganisationPathIdentifier(org: string, repo: string, suffix: string)
    requires '/' !in org && !IsDecimal(org)
    requires suffix == ".git" || (suffix == "" && !EndsWith(org + "/" + repo, ".git"))
    ensures WithoutGitSuffix(WithoutPort(org + "/" + repo + suffix)) == org + "/" + repo
  {
    var name := org + "/" + repo + suffix;
    assert name == org + "/" + (repo + suffix);
    WithoutPortKeeps(org, repo + suffix);
    var id := org + "/" + repo;
    assert name == id + suffix;
    WithoutGitSuffixRemovesOne(id);
  }

  /** `port/path` with an optional `.git` becomes `path` when `port` is a number. */
  lemma {:induction false} PortPathIdentifier(port: string, path: string, suffix: string)
    requires IsDecimal(port)
    requires suffix == ".git" || (suffix == "" && !EndsWith(path, ".git"))
    ensures WithoutGitSuffix(WithoutPort(port + "/" + path + suffix)) == path
  {
    assert port + "/" + path + suffix == port + "/" + (path + suffix);
    WithoutPortDrops(port, path + suffix);
    WithoutGitSuffixRemovesOne(path);
  }

  /**
   * An SCP-style or ssh URL names the repository `org/repo` when the
   * organisation is not a number; one trailing `.git` is removed.
   */
  lemma {:induction false} ScpUrlName(prefix: string, host: string, org: string, repo: string, suffix: string, dirs: set<string>)
    requires |prefix| == 5 && !StartsWith(prefix, "http")
    requires ':' !in host && ':' !in org && ':' !in repo && '/' !in org && !IsDecimal(org)
    requires suffix == ".git" || (suffix == "" && !EndsWith(org + "/" + repo, ".git"))
    requires prefix + host + ":" + (org + "/" + repo + suffix) !in dirs
    ensures RepositoryName(prefix + host + ":" + (org + "/" + repo + suffix), dirs) == Success(org + "/" + repo)
  {
    OrganisationPathIdentifier(org, repo, suffix);
    NoColonInPath(org, repo, suffix);
    ScpRepositoryName(prefix, host, org + "/" + repo + suffix, dirs);
  }

  lemma NoColonInPath(org: string, repo: string, suffix: string)
    requires ':' !in org && ':' !in repo && (suffix == ".git" || suffix == "")
    ensures ':' !in org + "/" + repo + suffix
  {
  }

  /**
   * A numeric first component after the `:` is taken for a port and
   * dropped (`ssh://git@host:5000/org/repo.git`); so is a numeric
   * organisation name.
   */
  lemma {:induction false} ScpUrlWithPortName(prefix: string, host: string, port: string, path: string, suffix: string, dirs: set<string>)
    requires |prefix| == 5 && !StartsWith(prefix, "http")
    requires ':' !in host && IsDecimal(port) && ':' !in path
    requires suffix == ".git" || (suffix == "" && !EndsWith(path, ".git"))
    requires prefix + host + ":" + (port + "/" + path + suffix) !in dirs
    ensures RepositoryName(prefix + host + ":" + (port + "/" + path + suffix), dirs) == Success(path)
  {
    PortPathIdentifier(port, path, suffix);
    assert ':' !in port;
    assert ':' !in port + "/" + path + suffix;
    ScpRepositoryName(prefix, host, port + "/" + path + suffix, dirs);
  }

  /**
   * The malformed-URL exception is raised exactly for a non-empty URL that
   * is neither `http…` nor an existing directory and has no `:` after its
   * first five characters.
   */
  lemma {:induction false} MalformedGitUrlRaised(url: string, dirs: set<string>)
    ensures RepositoryName(url, dirs).Failure? <==>
      !StartsWith(url, "http") && url != "" && url !in dirs && ':' !in Drop(url, 5)
    ensures RepositoryName(url, dirs).Failure? ==> RepositoryName(url, dirs).error == MalformedGitUrl(url)
  {
    SplitCountChar(Drop(url, 5), ':');
  }

  /**
   * The `https` URLs of the tests of `CooperativeSyncTask`,
   * `https://github.com/riotkit-org/riotkit-do` and the same with `:5000`,
   * written as the pieces the general lemma takes apart, name
   * `riotkit-org/riotkit-do`.
   */
  lemma HttpsExamples(dirs: set<string>)
    ensures RepositoryName("https" + "://" + "github.com" + "/" + ("riotkit-org" + "/" + "riotkit-do"), dirs)
      == Success("riotkit-org" + "/" + "riotkit-do")
    ensures RepositoryName("https" + "://" + "github.com:5000" + "/" + ("riotkit-org" + "/" + "riotkit-do"), dirs)
      == Success("riotkit-org" + "/" + "riotkit-do")
  {
    assert forall i :: 0 <= i < |"https"| ==> IsSchemeChar("https"[i]);
    var path := "riotkit-org" + "/" + "riotkit-do";
    HttpUrlName("https", "github.com", path, dirs);
    HttpUrlName("https", "github.com:5000", path, dirs);
  }

  /** `https://github.com/riotkit-org/riotkit-do;v=1` names `riotkit-org/riotkit-do`: `urlparse` splits off `;v=1`. */
  lemma HttpsParamsExample(dirs: set<string>)
    ensures RepositoryName("https" + "://" + "github.com" + "/" + ("riotkit-org/" + "riotkit-do" + ";" + "v=1"), dirs)
      == Success("riotkit-org/" + "riotkit-do")
  {
    assert forall i :: 0 <= i < |"https"| ==> IsSchemeChar("https"[i]);
    assert AsciiLower("https") == "https";
    HttpUrlWithParamsName("https", "github.com", "riotkit-org/", "riotkit-do", "v=1", dirs);
  }

  // The SCP and ssh example URLs below are written cut where `prefix` (the
  // first five characters, which the source skips) and `host` (the rest up
  // to the `:`) split them in `ScpUrlName` and `ScpSegmentName`:
  // "git@g" + "ithub.com" is `git@github.com`, "ssh:/" + "/git@github.com"
  // is `ssh://git@github.com`.

  /**
   * `git@github.com:riotkit-org/riotkit-do.git` and its `ssh://` form, from
   * the tests of `CooperativeSyncTask`, name `riotkit-org/riotkit-do`.
   */
  lemma ScpExamples(dirs: set<string>)
    requires "git@g" + "ithub.com" + ":" + ("riotkit-org" + "/" + "riotkit-do" + ".git") !in dirs
    requires "ssh:/" + "/git@github.com" + ":" + ("riotkit-org" + "/" + "riotkit-do" + ".git") !in dirs
    ensures RepositoryName("git@g" + "ithub.com" + ":" + ("riotkit-org" + "/" + "riotkit-do" + ".git"), dirs)
      == Success("riotkit-org" + "/" + "riotkit-do")
    ensures RepositoryName("ssh:/" + "/git@github.com" + ":" + ("riotkit-org" + "/" + "riotkit-do" + ".git"), dirs)
      == Success("riotkit-org" + "/" + "riotkit-do")
  {
    assert !IsDigit("riotkit-org"[0]);
    assert !StartsWith("git@g", "http") by { assert "git@g"[..4][0] == 'g'; }
    assert !StartsWith("ssh:/", "http") by { assert "ssh:/"[..4][0] == 's'; }
    ScpUrlName("git@g", "ithub.com", "riotkit-org", "riotkit-do", ".git", dirs);
    ScpUrlName("ssh:/", "/git@github.com", "riotkit-org", "riotkit-do", ".git", dirs);
  }

  /** `git@github.com:riotkit-do.git` is named `riotkit-do`. */
  lemma ScpSegmentExample(dirs: set<string>)
    requires "git@g" + "ithub.com" + ":" + ("riotkit-do" + ".git") !in dirs
    ensures RepositoryName("git@g" + "ithub.com" + ":" + ("riotkit-do" + ".git"), dirs) == Success("riotkit-do")
  {
    assert !IsDigit("riotkit-do"[0]);
    assert !StartsWith("git@g", "http") by { assert "git@g"[..4][0] == 'g'; }
    ScpSegmentName("git@g", "ithub.com", "riotkit-do" + ".git", dirs);
    WithoutGitSuffixRemovesOne("riotkit-do");
  }

  /** `ssh://git@github.com:5000`, a port with no path after it, is named `''`. */
  lemma PortOnlyExample(dirs: set<string>)
    requires "ssh:/" + "/git@github.com" + ":" + "5000" !in dirs
    ensures RepositoryName("ssh:/" + "/git@github.com" + ":" + "5000", dirs) == Success("")
  {
    assert IsDecimal("5000");
    assert !StartsWith("ssh:/", "http") by { assert "ssh:/"[..4][0] == 's'; }
    ScpSegmentName("ssh:/", "/git@github.com", "5000", dirs);
  }

  /** `ssh://git@github.com:5000/riotkit-org/riotkit-do.git`, from the tests of `CooperativeSyncTask`, names `riotkit-org/riotkit-do`. */
  lemma ScpWithPortExample(dirs: set<string>)
    requires "ssh:/" + "/git@github.com" + ":" + ("5000" + "/" + ("riotkit-org" + "/" + "riotkit-do") + ".git") !in dirs
    ensures RepositoryName("ssh:/" + "/git@github.com" + ":" + ("5000" + "/" + ("riotkit-org" + "/" + "riotkit-do") + ".git"), dirs)
      == Success("riotkit-org" + "/" + "riotkit-do")
  {
    assert IsDecimal("5000");
    assert !StartsWith("ssh:/", "http") by { assert "ssh:/"[..4][0] == 's'; }
    ScpUrlWithPortName("ssh:/", "/git@github.com", "5000", "riotkit-org" + "/" + "riotkit-do", ".git", dirs);
  }

  // ---------------------------------------------------------------------
  // One repository

  /** `REPOSITORIES_DIRECTORY + '/' + name` */
  function RepositoryDir(name: string): string {
    RepositoriesDirectory + "/" + name
  }

  function MkdirCommand(dir: string): Command {
    Shell("mkdir -p " + dir)
  }

  function CloneCommand(url: string, dir: string): Command {
    Shell("git clone " + url + " " + dir)
  }

  function DisableDetachedHeadAdviceCommand(dir: string): Command {
    Shell("cd \"" + dir + "\" && git config advice.detachedHead false")
  }

  function CheckoutCommand(dir: string, branch: string): Command {
    Shell("cd \"" + dir + "\" && git checkout \"" + branch + "\"")
  }

  function UpdateCommand(dir: string, branch: string): Command {
    Shell("cd \"" + dir + "\" && git reset --hard HEAD && git checkout " + branch + " && git pull origin " + branch)
  }

  /** What a first synchronisation runs, in order. */
  function CloneCommands(url: string, dir: string, branch: string): seq<Command> {
    [MkdirCommand(dir), CloneCommand(url, dir), DisableDetachedHeadAdviceCommand(dir), CheckoutCommand(dir, branch)]
  }

  /** The outcome of `sync_repository` when it returns. */
  datatype SyncRun = SyncRun(ok: bool, issued: seq<Command>, dirs: set<string>)

  /**
   * What `sync_repository` does once the directory `dir` is known, on a disk
   * whose directories are `dirs`: the boolean it returns, the commands it
   * started and the directories afterwards (`mkdir -p` leaves the
   * repository directory behind).
   */
  function SyncIn(url: string, dir: string, branch: string, dirs: set<string>, failing: set<Command>): (run: SyncRun)
    ensures 1 <= |run.issued| <= 4
    ensures run.ok <==> AllSucceed(run.issued, failing)
    ensures dirs <= run.dirs
  {
    if dir + "/" !in dirs then
      var planned := CloneCommands(url, dir, branch);
      SyncRun(
        AllSucceed(planned, failing),
        RunUntilFailure(planned, failing),
        if MkdirCommand(dir) !in failing then dirs + {dir + "/"} else dirs)
    else
      var update := UpdateCommand(dir, branch);
      assert [update][0] == update;
      SyncRun(update !in failing, [update], dirs)
  }

  /** `sync_repository(url, branch)`: the malformed-URL exception, or the run in the repository's directory. */
  function SyncOf(url: string, branch: string, dirs: set<string>, failing: set<Command>): (r: Result<SyncRun, SyncError>)
    ensures r.Failure? ==> r.error == MalformedGitUrl(url)
    ensures r.Success? ==> (r.value.ok <==> AllSucceed(r.value.issued, failing))
  {
    var name :- RepositoryName(url, dirs);
    Success(SyncIn(url, RepositoryDir(name), branch, dirs, failing))
  }

  /**
   * A repository whose directory is absent is created, cloned, told not to
   * warn about a detached HEAD and checked out, in that order; the first
   * failing command stops the others, and the result is true exactly when
   * none failed.
   */
  lemma CloneWhenAbsent(url: string, dir: string, branch: string, dirs: set<string>, failing: set<Command>)
    requires dir + "/" !in dirs
    ensures var planned := CloneCommands(url, dir, branch);
      var run := SyncIn(url, dir, branch, dirs, failing);
      && 1 <= |run.issued| <= 4 && run.issued == planned[..|run.issued|]
      && (run.ok <==> forall i :: 0 <= i < 4 ==> planned[i] !in failing)
      && (run.ok ==> run.issued == planned)
      && (!run.ok ==> run.issued[|run.issued| - 1] in failing
                      && forall i :: 0 <= i < |run.issued| - 1 ==> run.issued[i] !in failing)
      && (dir + "/" in run.dirs <==> MkdirCommand(dir) !in failing)
  {
  }

  /** A repository whose directory exists gets exactly one reset/checkout/pull command and the disk is left alone. */
  lemma UpdateWhenPresent(url: string, dir: string, branch: string, dirs: set<string>, failing: set<Command>)
    requires dir + "/" in dirs
    ensures var update := UpdateCommand(dir, branch);
      SyncIn(url, dir, branch, dirs, failing) == SyncRun(update !in failing, [update], dirs)
  {
  }

  /**
   * The body of the `try` in `sync_repository`, with the outside world
   * `host`: a `CalledProcessError` stops the commands and becomes `false`.
   */
  method SyncDirectory(host: Host, url: string, dir: string, branch: string) returns (ok: bool)
    modifies host
    ensures var run := SyncIn(url, dir, branch, old(host.dirs), host.failing);
      ok == run.ok && host.log == old(host.log) + run.issued && host.dirs == run.dirs
  {
    ghost var planned := CloneCommands(url, dir, branch);
    if dir + "/" !in host.dirs {
      ok := host.Run(MkdirCommand(dir));
      assert host.log == old(host.log) + planned[..1];
      if !ok {
        RunUntilFailureIs(planned, host.failing, 0);
        return;
      }
      host.dirs := host.dirs + {dir + "/"};
      ok := host.Run(CloneCommand(url, dir));
      assert host.log == old(host.log) + planned[..2] by {
        assert planned[..2] == planned[..1] + [planned[1]];
      }
      if !ok {
        RunUntilFailureIs(planned, host.failing, 1);
        return;
      }
      ok := host.Run(DisableDetachedHeadAdviceCommand(dir));
      assert host.log == old(host.log) + planned[..3] by {
        assert planned[..3] == planned[..2] + [planned[2]];
      }
      if !ok {
        RunUntilFailureIs(planned, host.failing, 2);
        return;
      }
      ok := host.Run(CheckoutCommand(dir, branch));
      assert host.log == old(host.log) + planned by {
        assert planned == planned[..3] + [planned[3]];
      }
      RunUntilFailureIs(planned, host.failing, if ok then 4 else 3);
    } else {
      ok := host.Run(UpdateCommand(dir, branch));
    }
  }

  /**
   * `sync_repository` with the outside world `host`. The identifier is
   * derived before the `try`, so the malformed-URL exception escapes.
   */
  method SyncRepository(host: Host, url: string, branch: string) returns (r: Result<bool, SyncError>)
    modifies host
    ensures match SyncOf(url, branch, old(host.dirs), host.failing)
      case Failure(e) => r == Failure(e) && host.log == old(host.log) && host.dirs == old(host.dirs)
      case Success(run) => r == Success(run.ok) && host.log == old(host.log) + run.issued && host.dirs == run.dirs
  {
    var name := RepositoryName(url, host.dirs);
    if name.Failure? {
      return Failure(name.error);
    }
    var ok := SyncDirectory(host, url, RepositoryDir(name.value), branch);
    return Success(ok);
  }

  // ---------------------------------------------------------------------
  // The batch

  /** The repositories synced so far, and the exception that ended the batch, if any. */
  datatype Batch = Batch(runs: seq<SyncRun>, error: Option<SyncError>)

  /** What syncing one repository does on the directories left so far: the exception or the run. */
  type Syncer = (Repository, set<string>) -> Result<SyncRun, SyncError>

  /** `sync_repository` as a step of the batch, for the commands that fail. */
  function SyncerOf(failing: set<Command>): Syncer {
    (r: Repository, dirs: set<string>) => SyncOf(r.url, r.ref, dirs, failing)
  }

  /** The directories after the given runs. */
  function DirsAfter(dirs: set<string>, runs: seq<SyncRun>): set<string> {
    if runs == [] then dirs else runs[|runs| - 1].dirs
  }

  /**
   * `execute` over the repositories, in order: each is synced on the disk
   * the previous ones left; a `false` does not stop the batch, an exception
   * does.
   */
  function BatchOf(sync: Syncer, repos: seq<Repository>, dirs: set<string>): (b: Batch)
    ensures b.error.None? ==> |b.runs| == |repos|
    ensures b.error.Some? ==> |b.runs| < |repos|
  {
    if repos == [] then Batch([], None)
    else
      var prev := BatchOf(sync, repos[..|repos| - 1], dirs);
      if prev.error.Some? then prev
      else
        match sync(repos[|repos| - 1], DirsAfter(dirs, prev.runs))
        case Failure(e) => Batch(prev.runs, Some(e))
        case Success(run) => Batch(prev.runs + [run], None)
  }

  /** The commands of the runs, one run after the other. */
  function Issued(runs: seq<SyncRun>): seq<Command> {
    if runs == [] then [] else Issued(runs[..|runs| - 1]) + runs[|runs| - 1].issued
  }

  /** `end_result`: true until a repository fails. */
  function AllOk(runs: seq<SyncRun>): bool {
    runs == [] || (AllOk(runs[..|runs| - 1]) && runs[|runs| - 1].ok)
  }

  /** The batch result is the conjunction of the per-repository results; an empty batch succeeds. */
  lemma {:induction false} AllOkIsConjunction(runs: seq<SyncRun>)
    ensures AllOk(runs) <==> forall i :: 0 <= i < |runs| ==> runs[i].ok
  {
    if runs != [] {
      var n := |runs| - 1;
      AllOkIsConjunction(runs[..n]);
      assert forall i :: 0 <= i < n ==> runs[..n][i] == runs[i];
    }
  }

  /** The commands of the batch are those of each run, in the order of the runs. */
  lemma {:induction false} IssuedIsConcatenation(runs: seq<SyncRun>, i: nat)
    requires i <= |runs|
    ensures Issued(runs) == Issued(runs[..i]) + Issued(runs[i..])
    ensures i < |runs| ==> Issued(runs[i..]) == runs[i].issued + Issued(runs[i + 1..])
    decreases |runs|
  {
    if i < |runs| {
      var n := |runs| - 1;
      if i == n {
        assert runs[..n] == runs[..i];
        assert runs[i..] == [runs[i]] && runs[i + 1..] == [];
        assert Issued([runs[i]]) == Issued([]) + runs[i].issued;
      } else {
        IssuedIsConcatenation(runs[..n], i);
        assert runs[..n][..i] == runs[..i];
        assert runs[..n][i..] == runs[i..][..|runs[i..]| - 1];
        assert runs[..n][i + 1..] == runs[i + 1..][..|runs[i + 1..]| - 1];
      }
    } else {
      assert runs[..i] == runs;
    }
  }

  /**
   * Every repository the batch reached was synced once, in order, on the
   * directories its predecessors left, whatever their results.
   */
  lemma {:induction false} BatchSyncsEachInOrder(sync: Syncer, repos: seq<Repository>, dirs: set<string>, i: nat)
    requires i < |BatchOf(sync, repos, dirs).runs|
    ensures var runs := BatchOf(sync, repos, dirs).runs;
      sync(repos[i], DirsAfter(dirs, runs[..i])) == Success(runs[i])
  {
    var n := |repos| - 1;
    var prev := BatchOf(sync, repos[..n], dirs);
    if prev.error.None? && i == |prev.runs| {
      assert BatchOf(sync, repos, dirs).runs[..i] == prev.runs;
    } else {
      BatchSyncsEachInOrder(sync, repos[..n], dirs, i);
      assert BatchOf(sync, repos, dirs).runs[..i] == prev.runs[..i];
    }
  }

  /** A batch that ended early ended on the exception of the first repository it did not sync. */
  lemma {:induction false} BatchStopsAtException(sync: Syncer, repos: seq<Repository>, dirs: set<string>)
    ensures var b := BatchOf(sync, repos, dirs);
      b.error.Some? ==> sync(repos[|b.runs|], DirsAfter(dirs, b.runs)) == Failure(b.error.value)
  {
    if repos != [] {
      var n := |repos| - 1;
      BatchStopsAtException(sync, repos[..n], dirs);
    }
  }

  /**
   * In `execute`, the batch ends early only on the malformed-URL
   * exception, for the first repository it did not sync.
   */
  lemma BatchStopsOnlyOnMalformedUrl(repos: seq<Repository>, dirs: set<string>, failing: set<Command>)
    ensures var b := BatchOf(SyncerOf(failing), repos, dirs);
      b.error.Some? ==>
        var k := |b.runs|;
        RepositoryName(repos[k].url, DirsAfter(dirs, b.runs)) == Failure(b.error.value)
        && b.error.value == MalformedGitUrl(repos[k].url)
  {
    var b := BatchOf(SyncerOf(failing), repos, dirs);
    BatchStopsAtException(SyncerOf(failing), repos, dirs);
    if b.error.Some? {
      MalformedGitUrlRaised(repos[|b.runs|].url, DirsAfter(dirs, b.runs));
    }
  }

  /** Once the exception has ended the batch, later repositories change nothing. */
  lemma {:induction false} BatchEndsAtException(sync: Syncer, repos: seq<Repository>, dirs: set<string>, k: nat)
    requires k <= |repos| && BatchOf(sync, repos[..k], dirs).error.Some?
    ensures BatchOf(sync, repos, dirs) == BatchOf(sync, repos[..k], dirs)
    decreases |repos| - k
  {
    if k < |repos| {
      var n := |repos| - 1;
      assert repos[..n][..k] == repos[..k];
      BatchEndsAtException(sync, repos[..n], dirs, k);
    } else {
      assert repos[..k] == repos;
    }
  }

  /** The bookkeeping of the batch after one more run. */
  lemma RunsExtend(runs: seq<SyncRun>, run: SyncRun, dirs: set<string>, log: seq<Command>)
    ensures log + Issued(runs + [run]) == log + Issued(runs) + run.issued
    ensures DirsAfter(dirs, runs + [run]) == run.dirs
    ensures AllOk(runs + [run]) == (AllOk(runs) && run.ok)
  {
    assert (runs + [run])[..|runs|] == runs;
  }

  /**
   * What one iteration of `execute` needs to know: after the repositories
   * before `i` synced, repository `i` either ends the whole batch with its
   * exception or adds its run, its commands, its directories and its result.
   */
  lemma BatchStep(sync: Syncer, repos: seq<Repository>, dirs: set<string>, i: nat, log: seq<Command>)
    requires i < |repos| && BatchOf(sync, repos[..i], dirs).error.None?
    ensures var prev := BatchOf(sync, repos[..i], dirs);
      match sync(repos[i], DirsAfter(dirs, prev.runs))
      case Failure(e) => BatchOf(sync, repos, dirs) == Batch(prev.runs, Some(e))
      case Success(run) =>
        var next := BatchOf(sync, repos[..i + 1], dirs);
        && next == Batch(prev.runs + [run], None)
        && log + Issued(next.runs) == log + Issued(prev.runs) + run.issued
        && DirsAfter(dirs, next.runs) == run.dirs
        && AllOk(next.runs) == (AllOk(prev.runs) && run.ok)
  {
    assert repos[..i + 1][..i] == repos[..i];
    var prev := BatchOf(sync, repos[..i], dirs);
    var synced := sync(repos[i], DirsAfter(dirs, prev.runs));
    if synced.Failure? {
      BatchEndsAtException(sync, repos, dirs, i + 1);
    } else {
      RunsExtend(prev.runs, synced.value, dirs, log);
    }
  }

  /**
   * `CooperativeSyncTask.execute`: sync every listed repository in order;
   * the result is true when all of them returned true. The malformed-URL
   * exception leaves the method with the commands of the earlier
   * repositories already run.
   */
  method Execute(host: Host, raw: Option<string>) returns (r: Result<bool, SyncError>)
    modifies host
    ensures var b := BatchOf(SyncerOf(host.failing), RepositoriesOf(raw), old(host.dirs));
      && host.log == old(host.log) + Issued(b.runs)
      && host.dirs == DirsAfter(old(host.dirs), b.runs)
      && r == (if b.error.Some? then Failure(b.error.value) else Success(AllOk(b.runs)))
  {
    var repos := GetRepositoriesList(raw);
    var endResult := true;
    ghost var sync := SyncerOf(host.failing);
    ghost var runs: seq<SyncRun> := [];
    for i := 0 to |repos|
      invariant BatchOf(sync, repos[..i], old(host.dirs)) == Batch(runs, None)
      invariant host.log == old(host.log) + Issued(runs)
      invariant host.dirs == DirsAfter(old(host.dirs), runs)
      invariant endResult == AllOk(runs)
    {
      BatchStep(sync, repos, old(host.dirs), i, old(host.log));
      assert sync(repos[i], host.dirs) == SyncOf(repos[i].url, repos[i].ref, host.dirs, host.failing);
      var synced := SyncRepository(host, repos[i].url, repos[i].ref);
      if synced.Failure? {
        return Failure(synced.error);
      }
      runs := BatchOf(sync, repos[..i + 1], old(host.dirs)).runs;
      if !synced.value {
        endResult := false;
      }
    }
    assert repos[..|repos|] == repos;
    return Success(endResult);
  }
}
