# rkd-cooperative tasks, modelled in Dafny

The `:cooperative` tasks of RKD share snippets through git repositories:

- `:cooperative:sync` reads a comma-separated list of git URLs, each
  optionally followed by `@@ref`. It derives a local directory under
  `.rkd/cooperative` from each URL. It then clones the repository there
  the first time, and resets and pulls it on later runs.
- `:cooperative:install <category/name>` looks for a snippet with that
  name in the synchronised repositories. When exactly one is found, it runs
  the snippet's wizard and installer.

This project models the logic of both tasks in `rkd_cooperative/tasks.py`
and proves properties of it. The shell, git, `glob` and the filesystem are
replaced by oracles.

Modules:

- `Wrappers`: `Option` and `Result`.
- `Strings`: the `str` operations the tasks use (`startswith`, `endswith`,
  slicing, `split`, `join`, `isdecimal`), with round-trip lemmas.
- `Paths`: `os.path.basename` and `os.path.dirname` (POSIX), and the path
  of `urllib.parse.urlparse`: scheme, `//netloc`, query, fragment and the
  `;params` of the last segment.
- `Processes`: a `Host` class. It holds the directories that exist, the
  log of every command started, and the fixed set of commands that fail
  with `CalledProcessError`. `Run` starts one command.
- `Repositories`: `get_repositories_list`. The insertion-ordered dictionary
  is a sequence of (url, ref) pairs.
- `Sync`: `extract_repository_name_from_git_url` is the function
  `RepositoryName`, with lemmas for each of its branches. `sync_repository`
  and the batch loop of the sync task's `execute` are module-level methods
  (`SyncDirectory`, `SyncRepository`, `Execute`) that take the `Host` as an
  argument and change it. Each is proved against a specification function
  (`SyncIn`, `SyncOf`, `BatchOf`).
- `Install`: `extract_category_and_pkg_names`, `list_snippets`,
  `find_snippet_path` and the install task's `execute`.

`sync_repository` derives the identifier before its `try`
(rkd_cooperative/tasks.py:74-76). A malformed URL therefore raises an
exception that leaves the sync task's `execute`: it does not turn into
`False`, and the repositories after that one are not synced.
`Sync.Execute` returns that exception as a `Failure`.

## Model

| member | source | states |
|---|---|---|
| Strings.JoinSplit | rkd_cooperative/tasks.py:112-116 | joining the pieces of `split(sep)` with `sep` gives back the string |
| Strings.SplitJoinChar | rkd_cooperative/tasks.py:165-167 | splitting on a character the joined pieces do not contain gives back the pieces |
| Paths.Basename | rkd_cooperative/tasks.py:103-104 | the basename holds no `/` and ends the path |
| Paths.Dirname | rkd_cooperative/tasks.py:203 | the dirname is a prefix of the path; only slashes lie between it and the last segment; it ends in `/` only when it is all slashes |
| Paths.UrlPath | rkd_cooperative/tasks.py:98 | the URL path holds no `?` and no `#` |
| Paths.WithoutParams | rkd_cooperative/tasks.py:98 | `;params` are cut from the last segment only: the result keeps every earlier segment and its last segment holds no `;` |
| Paths.BasenameOfSegment | rkd_cooperative/tasks.py:103-104 | a path without `/` is its own basename |
| Paths.BasenameAfterSlash | rkd_cooperative/tasks.py:103-104 | the basename of `dir/name` is `name` when `name` has no `/` |
| Paths.DirnameBeforeLastSegment | rkd_cooperative/tasks.py:203 | the dirname ends before the last segment, and is the whole text before it when that text is slashes only; with `Dirname`'s contract this fixes the dirname of every path |
| Paths.DirnameOfChild | rkd_cooperative/tasks.py:203 | the dirname of `dir/name` is `dir` when `dir` does not end in `/` |
| Paths.UrlPathOfHierarchicalUrl | rkd_cooperative/tasks.py:98 | the `urlparse` path of `scheme://host/path` is `/path` for a path without `;`, `?` and `#`, whatever port the host carries |
| Paths.WithoutParamsAtFirstSemicolon | rkd_cooperative/tasks.py:98 | the path is cut at a `;` or not at all; with `WithoutParams`'s contract, at the first `;` of the last segment |
| Paths.WithoutParamsKeepsEarlierSegments | rkd_cooperative/tasks.py:98 | a path whose `;` lie only in earlier segments is kept whole |
| Paths.UrlPathDropsParams | rkd_cooperative/tasks.py:98 | for `http` and `https`, the `;params` of the last path segment are not part of the URL path |
| Processes.Host.Run | rkd_cooperative/tasks.py:78-87 | a command is appended to the log and succeeds exactly when it is not a failing command |
| Processes.RunUntilFailure | rkd_cooperative/tasks.py:76-91 | commands run in order until the first failure: a prefix of the plan, all but the last succeeding, the whole plan unless the last failed, all succeeding iff the plan does |
| Processes.RunUntilFailureIs | rkd_cooperative/tasks.py:76-91 | with the first failure at position k, the commands started are the first k+1 (all of them when none fails) |
| Repositories.ParseEntry | rkd_cooperative/tasks.py:38-39 | the URL is a prefix of the entry without `@@`; the ref is `master`, or the entry holds `@@` and the ref holds none; `ParseEntryAtFirstSeparator` fixes both for an entry holding `@@` |
| Repositories.AssignAll | rkd_cooperative/tasks.py:35-39 | every pair of the dictionary is one of the entries, there are no more pairs than entries, and a non-empty list gives a non-empty dictionary |
| Repositories.RepositoriesOf | rkd_cooperative/tasks.py:32-45 | the result is empty exactly for a missing argument, and its URLs are distinct |
| Repositories.GetRepositoriesList | rkd_cooperative/tasks.py:32-45 | the loop builds the dictionary of the entries assigned in order; a missing argument gives none |
| Repositories.AssignAllIsDictionary | rkd_cooperative/tasks.py:37-39 | the result has each URL once, and each URL maps to the ref of its last entry |
| Repositories.AssignAllKeepsFirstOrder | rkd_cooperative/tasks.py:35-39 | every key comes from an entry, and the keys are ordered by the first entry of their URL |
| Repositories.AssignUpdatesOneKey | rkd_cooperative/tasks.py:39 | one assignment keeps the URLs distinct and changes the value of the assigned URL only |
| Repositories.LastRefIsLastWrite | rkd_cooperative/tasks.py:37-39 | the value kept for a URL is the ref of the last entry naming it |
| Repositories.LastRefNone | rkd_cooperative/tasks.py:37-39 | a URL has no value exactly when no entry names it |
| Repositories.EntryWithoutRef | rkd_cooperative/tasks.py:38-39 | an entry is its own URL exactly when it has no `@@`, and then its ref is `master` |
| Repositories.EntryWithRef | rkd_cooperative/tasks.py:38-39 | `url@@ref` maps `url` to `ref` when `url` does not end in `@`; `a@@b@` gives `('a', 'b@')` |
| Repositories.EntryWithRefAndTail | rkd_cooperative/tasks.py:38-39 | further `@@` segments after `url@@ref` are dropped |
| Repositories.ParseEntryAtFirstSeparator | rkd_cooperative/tasks.py:38-39 | for every entry holding `@@`, the URL is the text before the first `@@` and the ref the text after it, up to the next `@@` |
| Repositories.ParseEntryRefFollowsUrl | rkd_cooperative/tasks.py:38-39 | every entry holding `@@` starts with `url@@ref` |
| Repositories.EmptyArgument | rkd_cooperative/tasks.py:34-39 | an empty argument gives the single entry `''` with ref `master` |
| Sync.WithoutPort | rkd_cooperative/tasks.py:111-116 | the identifier after dropping a port is a suffix of the name |
| Sync.WithoutGitSuffix | rkd_cooperative/tasks.py:118-121 | either the name is the result plus `.git`, or the name has no `.git` ending and is unchanged |
| Sync.RepositoryName | rkd_cooperative/tasks.py:96-121 | within the `urlparse` modelled by `Paths.UrlPath`, the only error is the malformed-URL exception carrying the URL, and only for a non-empty, non-`http…` URL that is not a directory |
| Sync.HttpUrlName | rkd_cooperative/tasks.py:97-98 | an `http…` URL `scheme://host/path` is named `path` when `path` has no `;`, `?` or `#`; a port in the host does not appear |
| Sync.HttpUrlWithParamsName | rkd_cooperative/tasks.py:97-98 | an `http` or `https` URL whose last segment carries `;params` is named without them |
| Sync.HttpsParamsExample | rkd_cooperative/tasks.py:97-98 | `https://github.com/riotkit-org/riotkit-do;v=1` is named `riotkit-org/riotkit-do` |
| Sync.EmptyUrlName | rkd_cooperative/tasks.py:100-101 | an empty URL is named `''` |
| Sync.WithoutPortOfSegment | rkd_cooperative/tasks.py:111-116 | a one-component name is kept, unless it is a number, which gives `''` |
| Sync.LocalSegmentName | rkd_cooperative/tasks.py:103-104 | an existing directory without `/` that is not an `http…` URL is named by its own text |
| Sync.LocalDirectoryName | rkd_cooperative/tasks.py:103-104 | an existing directory `dir/name` that is not an `http…` URL is named `name` |
| Sync.SplitHostAndPath | rkd_cooperative/tasks.py:106 | `host:rest` splits on `:` into `host` and `rest` when neither has a `:` |
| Sync.WithoutPortKeeps | rkd_cooperative/tasks.py:112-116 | a first component that is not a number is kept |
| Sync.WithoutPortDrops | rkd_cooperative/tasks.py:112-116 | a numeric first component is dropped with its `/` |
| Sync.WithoutGitSuffixRemovesOne | rkd_cooperative/tasks.py:118-121 | exactly one trailing `.git` is removed, and a name without it is unchanged |
| Sync.ScpRepositoryName | rkd_cooperative/tasks.py:106-121 | an SCP or ssh URL `prefix host:name` is named `name` without a numeric first component and without `.git` |
| Sync.ScpSegmentName | rkd_cooperative/tasks.py:106-121 | `prefix host:name` with a `/`-free name is named by it without `.git`, and by `''` when the name is a number |
| Sync.ScpRepositoryNameWithTail | rkd_cooperative/tasks.py:106-121 | `prefix host:name:tail` is named as `prefix host:name` is: segments after the second are ignored |
| Sync.ScpSegmentsAfterName | rkd_cooperative/tasks.py:106-111 | after the first five characters, `host:name:tail` splits on `:` with `name` as its second segment |
| Sync.OrganisationPathIdentifier | rkd_cooperative/tasks.py:111-121 | `org/repo[.git]` becomes `org/repo` when `org` is not a number |
| Sync.PortPathIdentifier | rkd_cooperative/tasks.py:111-121 | `port/path[.git]` becomes `path` when `port` is a number |
| Sync.ScpUrlName | rkd_cooperative/tasks.py:106-121 | an SCP or ssh URL for `org/repo`, with or without `.git`, is named `org/repo` |
| Sync.ScpUrlWithPortName | rkd_cooperative/tasks.py:112-116 | an ssh URL with a port after the `:` is named by the path after the port |
| Sync.MalformedGitUrlRaised | rkd_cooperative/tasks.py:106-109 | the exception is raised exactly for a non-empty, non-`http…` URL that is not a directory and has no `:` after its first five characters |
| Sync.HttpsExamples | test/test_tasks_cooperativesynctask.py:50-51 | both `https` URLs, with and without `:5000`, are named `riotkit-org/riotkit-do` |
| Sync.ScpExamples | test/test_tasks_cooperativesynctask.py:52-53 | the `git@` and `ssh://` URLs are named `riotkit-org/riotkit-do` |
| Sync.ScpSegmentExample | rkd_cooperative/tasks.py:106-121 | `git@github.com:riotkit-do.git` is named `riotkit-do` |
| Sync.PortOnlyExample | rkd_cooperative/tasks.py:106-116 | `ssh://git@github.com:5000` is named `''` |
| Sync.ScpWithPortExample | test/test_tasks_cooperativesynctask.py:54 | the `ssh://` URL with port `5000` is named `riotkit-org/riotkit-do` |
| Sync.SyncIn | rkd_cooperative/tasks.py:76-93 | one to four commands are started, the result is true exactly when all of them succeeded, and no directory disappears |
| Sync.SyncOf | rkd_cooperative/tasks.py:73-93 | the only exception is the malformed-URL one for this URL; otherwise the result is true exactly when every command started succeeded |
| Sync.CloneWhenAbsent | rkd_cooperative/tasks.py:77-82 | an absent directory gets mkdir, clone, detached-HEAD advice off and checkout, in that order, up to the first failure; true iff none failed; the directory exists iff mkdir succeeded |
| Sync.UpdateWhenPresent | rkd_cooperative/tasks.py:84-93 | an existing directory gets exactly one reset/checkout/pull command; true iff it succeeded; the disk is unchanged |
| Sync.SyncDirectory | rkd_cooperative/tasks.py:76-93 | the commands, the result and the new directories are those of the clone or the update path |
| Sync.SyncRepository | rkd_cooperative/tasks.py:73-93 | the directory is `.rkd/cooperative/` plus the identifier; a malformed URL escapes as an exception with nothing run |
| Sync.BatchOf | rkd_cooperative/tasks.py:57-71 | without an exception every repository is synced; with one the batch stopped early |
| Sync.BatchSyncsEachInOrder | rkd_cooperative/tasks.py:60-67 | each repository reached is synced once, in order, on the directories its predecessors left, whatever their results |
| Sync.BatchStopsAtException | rkd_cooperative/tasks.py:60-63 | a batch that stopped early stopped on the exception of the first repository it did not sync |
| Sync.BatchStopsOnlyOnMalformedUrl | rkd_cooperative/tasks.py:63 | within the `urlparse` modelled by `Paths.UrlPath`, the only exception that stops the batch is the malformed-URL exception of that repository |
| Sync.BatchEndsAtException | rkd_cooperative/tasks.py:60-63 | once the exception is raised, later repositories change nothing |
| Sync.AllOkIsConjunction | rkd_cooperative/tasks.py:58-71 | the result is true iff every repository returned true; an empty list gives true |
| Sync.IssuedIsConcatenation | rkd_cooperative/tasks.py:60-63 | the commands of the batch are those of each repository in turn |
| Sync.RunsExtend | rkd_cooperative/tasks.py:60-67 | one more repository adds its commands, its directories and its result |
| Sync.BatchStep | rkd_cooperative/tasks.py:60-67 | repository i either ends the batch with its exception or adds its run |
| Sync.Execute | rkd_cooperative/tasks.py:57-71 | the log, the directories and the result are those of the batch over the parsed list; the exception is passed on |
| Install.CategoryAndPackage | rkd_cooperative/tasks.py:164-171 | the category holds no `/`, the package ends the name, and a non-empty category followed by `/` and the package is the name |
| Install.NameWithoutCategory | rkd_cooperative/tasks.py:164-171 | a name without `/` gives `('', name)` |
| Install.CategoryAndPackageOf | rkd_cooperative/tasks.py:164-171 | `c/p` gives `(c, p)` for any `c` without `/` |
| Install.CategoryAndPackageRejoin | rkd_cooperative/tasks.py:164-171 | for a name with `/`, category + `/` + package is the name, and the category has no `/` |
| Install.CategoryAndPackageExamples | test/test_tasks_cooperativeinstalltask.py:68-90 | `harbor/redis`, `redis` and `harbor/db/kv/redis` split as the tests expect |
| Install.GlobPattern | rkd_cooperative/tasks.py:197-198 | the pattern starts with `.rkd/cooperative/**/snippets/` and ends with `**/snippet.json` |
| Install.GlobPatternInjective | rkd_cooperative/tasks.py:197-198 | different categories give different patterns |
| Install.Dedup | rkd_cooperative/tasks.py:203 | no duplicates, and the same strings as the input |
| Install.ListSnippets | rkd_cooperative/tasks.py:196-203 | no duplicates, and exactly the dirnames of the paths the glob finds |
| Install.MatchesAre | rkd_cooperative/tasks.py:182-185 | the matches are the listed paths whose basename is the name |
| Install.MatchesAppend | rkd_cooperative/tasks.py:182-192 | matching a concatenation matches each part in turn |
| Install.SnippetPathOf | rkd_cooperative/tasks.py:173-194 | `None` exactly when no listed basename equals the name; a non-empty path found is listed and has the name as basename |
| Install.UniqueMatchFound | rkd_cooperative/tasks.py:180-194 | exactly one matching position gives that path |
| Install.TwoMatchesAmbiguous | rkd_cooperative/tasks.py:185-190 | two matching positions give `''` |
| Install.SnippetPathIgnoresOrder | rkd_cooperative/tasks.py:203 | two duplicate-free listings of the same paths find the same snippet |
| Install.NameWithSlashNotFound | rkd_cooperative/tasks.py:183-185 | a package name with `/` is never found |
| Install.FindSnippetPath | rkd_cooperative/tasks.py:173-194 | the loop returns `None`, the single match, or `''` at the second match |
| Install.InstallOf | rkd_cooperative/tasks.py:133-162 | true exactly when a path was found and both commands succeed; false exactly when no path was found; an error names one of the two commands, and that command failed |
| Install.RunInstall | rkd_cooperative/tasks.py:153-155 | the result is that of `InstallOf` and the log gains the commands run until the first failure |
| Install.InstallRunsWizardFirst | rkd_cooperative/tasks.py:153-162 | the wizard runs before the installer, and the installer only when the wizard succeeded; the error names the failing command |
| Install.NotFoundInstallsNothing | rkd_cooperative/tasks.py:139-142 | `None` and `''` both give `False` with nothing run |
| Install.Execute | rkd_cooperative/tasks.py:133-162 | the result and the commands run are those of the snippet path found for the split name |

## Left out

- The `RKD_PATH` environment variable and the deletion of `.rkd/tmp-wizard.json` in the install task's `execute`. Both are process-wide effects outside the tasks' logic.
- Sync.SyncDirectory: a successful `mkdir -p dir` adds only `dir/` to the directory set, while the real command creates every missing ancestor too, and `isdir` normalises repeated slashes. Later `isdir` checks in the same batch therefore do not see those ancestors or other spellings of the same directory. For example, with `https://github.com/org/repo,` on an empty disk, the trailing empty entry has the directory `.rkd/cooperative/`. The source finds `.rkd/cooperative//` present and runs the update command there. The model runs the clone commands.
- `os.path.realpath`, `glob` and `os.path.isdir` are inputs. `glob` is a function from pattern to paths. `isdir` is membership of the exact string in the host's directory set. The host adds `dir/` after a successful `mkdir -p`.
- The shell and git themselves. A command's outcome is fixed per command text by the host's failing set, and only the order of commands and their success are modelled.
- The wizard and snippet-install stub tasks, the task-runner wiring (names, argument parsing, environment declarations) and `io()` logging.
- `MissingInputException` from the argument lookup is modelled as a missing argument (`None`).
- Paths.UrlPath: the removal of every tab, carriage return and line feed anywhere in the URL (current `urlsplit` deletes them, so the source names `https://github.com/org/re\tpo` as `org/repo` while the model, and `Sync.HttpUrlName`, name it `org/re\tpo`), the stripping of leading control characters and spaces, IPv6 host checks and the rule of some Python versions that a scheme must not be followed by digits only are not modelled. `urlsplit` raises `ValueError` for a netloc with an unbalanced `[` or `]` (`https://github.com]/org/repo`) and for a netloc that NFKC normalisation changes into one holding `/`, `?`, `#`, `@` or `:`; `extract_repository_name_from_git_url` runs before the `try` in `sync_repository`, so that `ValueError` leaves `execute` as the malformed-URL exception does, while the model names such a URL. `Paths.ParamSchemes` is the `uses_params` list of current Python versions.
- Sync.RepositoryName: the malformed-URL exception is its only error in the model; the `ValueError` of `urlsplit` named under `Paths.UrlPath` is a second one in the source.
- Sync.BatchStopsOnlyOnMalformedUrl: for the same reason, that `ValueError` also stops the batch in the source and is not modelled.
- Strings.IsDecimal: accepts the ASCII digits only, not the other Unicode decimal characters `str.isdecimal` accepts.
- Install.Dedup: `list(set(...))` has no fixed order. The model keeps first occurrences, and `Install.SnippetPathIgnoresOrder` shows the snippet found does not depend on the order.
- The `Exception` raised for a malformed URL is modelled as the value `MalformedGitUrl(url)`, without its message text.
