/**
 * The world outside the tasks: the directories that exist on disk and the
 * external commands run through `self.sh` (a shell line) or
 * `subprocess.check_call` (an argument vector). Which commands fail is an
 * oracle fixed when the host is created; every command run is logged.
 */
module Processes {

  datatype Command =
    | Shell(line: string)         // `self.sh(line)`
    | Exec(argv: seq<string>)     // `subprocess.check_call(argv)`

  class Host {
    /** Paths, as the tasks spell them, for which `os.path.isdir` holds. */
    var dirs: set<string>
    /** Every command started so far, in order. */
    var log: seq<Command>
    /** The commands that exit non-zero, raising `CalledProcessError`. */
    const failing: set<Command>

    constructor (dirs0: set<string>, failing0: set<Command>)
      ensures dirs == dirs0 && failing == failing0 && log == []
    {
      dirs := dirs0;
      failing := failing0;
      log := [];
    }

    /** Starts `cmd` and waits for it; `ok` is false when it raised `CalledProcessError`. */
    method Run(cmd: Command) returns (ok: bool)
      modifies this`log
      ensures log == old(log) + [cmd]
      ensures ok <==> cmd !in failing
    {
      log := log + [cmd];
      ok := cmd !in failing;
    }
  }

  /** None of the commands fails. */
  predicate AllSucceed(cmds: seq<Command>, failing: set<Command>) {
    forall i :: 0 <= i < |cmds| ==> cmds[i] !in failing
  }

  /**
   * The commands started when `planned` run one after the other and the
   * first `CalledProcessError` stops the rest: a prefix of `planned` whose
   * commands all succeed except, when it stops early, the last one.
   */
  function RunUntilFailure(planned: seq<Command>, failing: set<Command>): (issued: seq<Command>)
    ensures |issued| <= |planned| && issued == planned[..|issued|]
    ensures forall i :: 0 <= i < |issued| - 1 ==> issued[i] !in failing
    ensures issued == planned || (issued != [] && issued[|issued| - 1] in failing)
    ensures AllSucceed(issued, failing) <==> AllSucceed(planned, failing)
  {
    if planned == [] then []
    else if planned[0] in failing then [planned[0]]
    else [planned[0]] + RunUntilFailure(planned[1..], failing)
  }

  /** The commands started stop right after the first failing one, or run out. */
  lemma RunUntilFailureIs(planned: seq<Command>, failing: set<Command>, k: nat)
    requires k <= |planned|
    requires forall i :: 0 <= i < k ==> planned[i] !in failing
    requires k < |planned| ==> planned[k] in failing
    ensures RunUntilFailure(planned, failing) == if k < |planned| then planned[..k + 1] else planned
  {
    var issued := RunUntilFailure(planned, failing);
    if issued != planned {
      assert issued[|issued| - 1] == planned[|issued| - 1];
    }
  }
}
