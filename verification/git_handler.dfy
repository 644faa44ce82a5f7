/** The `GitHandler` class of local-server/git-handler.js: command execution
    and result shaping, repository status, branch listing, repository
    validation, the Git version query, and branch creation.

    Git itself is an oracle: given an abstract repository state, the working
    directory and the full command line, it answers with the process's exit
    and the next repository state. Every operation returns the answers it
    consumed, in order, as a log; `Replays` ties that log to the oracle, so a
    contract about the log is a contract about which commands were issued. */
module GitHandler {
  import opened Outcomes
  import opened Strings
  import opened GitErrors
  import opened BranchListing

  /** What the operating system reports for one command line: a normal exit
      with its output, or `exec`'s error, carrying its message, its code
      (empty when it has none), and whatever output was captured. */
  datatype Exit =
    | Exited(stdout: string, stderr: string)
    | Crashed(message: string, code: string, stdout: string, stderr: string)

  /** The filesystem facts the handler consults: existing paths, and which of
      them are directories. */
  datatype FileSystem = FileSystem(paths: set<string>, directories: set<string>)

  /** The machine the local server runs on. */
  datatype Host<!S> = Host(fs: FileSystem, git: (S, string, string) -> (Exit, S))

  /** One command line issued and the answer it got. */
  datatype Call = Call(command: string, exit: Exit)

  datatype CommandOutcome = CommandOutcome(stdout: string, stderr: string, command: string)

  datatype CommandDetails = CommandDetails(command: string, workingDir: string, stderr: string, stdout: string)

  /** A rejected promise: either the object `executeGitCommand` rejects with,
      or an `Error` the handler throws itself. A Git failure keeps the raw
      error message and standard error its message is translated from. */
  datatype Failure =
    | GitFailure(errorMessage: string, stderr: string, code: string, details: CommandDetails)
    | Thrown(message: string)
  {
    /** The `message` of the rejection: the translation of the raw text for a
        Git failure. */
    function Message(): string {
      match this
      case GitFailure(m, err, _, _) => ParseGitError(m, err)
      case Thrown(m) => m
    }
  }

  /** The outcome of an operation, the repository state it leaves, and the
      calls it made. */
  datatype Run<T, S> = Run(result: Result<T, Failure>, state: S, log: seq<Call>)

  /** The oracle's answer to one command line. */
  function Ask<S>(host: Host<S>, s: S, dir: string, command: string): (Exit, S) {
    host.git(s, dir, command)
  }

  /** The log is exactly what the oracle answers when its commands are issued
      one after another in `dir`, starting from `s` and ending in `s'`. */
  ghost predicate Replays<S>(host: Host<S>, dir: string, s: S, log: seq<Call>, s': S)
  {
    if |log| == 0 then s' == s
    else
      var answer := Ask(host, s, dir, log[0].command);
      answer.0 == log[0].exit && Replays(host, dir, answer.1, log[1..], s')
  }

  lemma {:induction false} ReplaysAppend<S>(host: Host<S>, dir: string, s: S, a: seq<Call>, s1: S, b: seq<Call>, s2: S)
    requires Replays(host, dir, s, a, s1) && Replays(host, dir, s1, b, s2)
    ensures Replays(host, dir, s, a + b, s2)
    decreases |a|
  {
    if |a| > 0 {
      var answer := Ask(host, s, dir, a[0].command);
      assert (a + b)[0] == a[0];
      assert (a + b)[1..] == a[1..] + b;
      ReplaysAppend(host, dir, answer.1, a[1..], s1, b, s2);
    } else {
      assert a + b == b;
    }
  }

  function Commands(log: seq<Call>): (cs: seq<string>)
    ensures |cs| == |log| && forall i :: 0 <= i < |log| ==> cs[i] == log[i].command
  {
    seq(|log|, i requires 0 <= i < |log| => log[i].command)
  }

  /** The commands of `log`, in order, are the first `|log|` of `cmds`. */
  predicate Follows(log: seq<Call>, cmds: seq<string>) {
    |log| <= |cmds| && forall i :: 0 <= i < |log| ==> log[i].command == cmds[i]
  }

  /** A log of at most four calls follows `cmds` when each call does. */
  lemma FollowsFour(cmds: seq<string>, log: seq<Call>)
    requires 1 <= |log| <= 4 && |log| <= |cmds|
    requires log[0].command == cmds[0]
    requires |log| > 1 ==> log[1].command == cmds[1]
    requires |log| > 2 ==> log[2].command == cmds[2]
    requires |log| > 3 ==> log[3].command == cmds[3]
    ensures Follows(log, cmds)
  {
  }

  /** The oracle never changes the repository when answering any of `cmds` in `dir`. */
  ghost predicate ReadOnly<S(!new)>(host: Host<S>, dir: string, cmds: seq<string>)
  {
    forall s: S, c :: c in cmds ==> Ask(host, s, dir, c).1 == s
  }

  /** A log made only of read-only commands leaves the repository as it was. */
  lemma {:induction false} ReadOnlyReplayKeepsState<S(!new)>(host: Host<S>, dir: string, cmds: seq<string>, s: S, log: seq<Call>, s': S)
    requires ReadOnly(host, dir, cmds)
    requires forall i :: 0 <= i < |log| ==> log[i].command in cmds
    requires Replays(host, dir, s, log, s')
    ensures s' == s
    decreases |log|
  {
    if |log| > 0 {
      assert log[0].command in cmds;
      ReadOnlyReplayKeepsState(host, dir, cmds, Ask(host, s, dir, log[0].command).1, log[1..], s');
    }
  }

  // ---------------------------------------------------------------------
  // executeGitCommand

  /** Every command is run as `git <command>` on every platform. */
  function CommandLine(command: string): string {
    "git " + command
  }

  const DefaultCode := "GIT_ERROR"

  function Last(log: seq<Call>): Call
    requires |log| > 0
  {
    log[|log| - 1]
  }

  /** The trimmed standard output of an answer. */
  function Out(c: Call): string {
    match c.exit
    case Exited(out, _) => Trim(out)
    case Crashed(_, _, out, _) => Trim(out)
  }

  /** How `executeGitCommand` shapes an answer: a normal exit resolves with
      trimmed output and the command line; an error rejects with the
      translated message, the error code or `GIT_ERROR`, and diagnostics. */
  function Shape(dir: string, c: Call): (r: Result<CommandOutcome, Failure>)
    ensures r.Ok? <==> c.exit.Exited?
    ensures r.Ok? ==> r.value.stdout == Out(c) && Trimmed(r.value.stdout)
                      && Trimmed(r.value.stderr) && r.value.command == c.command
    ensures r.Err? ==> r.error.GitFailure?
                       && r.error.errorMessage == c.exit.message && r.error.stderr == c.exit.stderr
                       && r.error.code != ""
                       && (c.exit.code != "" ==> r.error.code == c.exit.code)
                       && (c.exit.code == "" ==> r.error.code == DefaultCode)
                       && r.error.details == CommandDetails(c.command, dir, Trim(c.exit.stderr), Out(c))
  {
    match c.exit
    case Exited(out, err) => Ok(CommandOutcome(Trim(out), Trim(err), c.command))
    case Crashed(message, code, out, err) =>
      Err(GitFailure(message, err,
                     if code != "" then code else DefaultCode,
                     CommandDetails(c.command, dir, Trim(err), Trim(out))))
  }

  /** `executeGitCommand(command, workingDir)`: exactly one command line is
      issued, and its answer is shaped. */
  function ExecuteGitCommand<S>(host: Host<S>, s: S, command: string, dir: string): (r: Run<CommandOutcome, S>)
    ensures |r.log| == 1 && r.log[0].command == CommandLine(command)
    ensures Replays(host, dir, s, r.log, r.state)
    ensures r.result == Shape(dir, r.log[0])
  {
    var line := CommandLine(command);
    var answer := Ask(host, s, dir, line);
    var c := Call(line, answer.0);
    Run(Shape(dir, c), answer.1, [c])
  }

  // ---------------------------------------------------------------------
  // getRepoStatus

  const ShowCurrent := "branch --show-current"
  const Porcelain := "status --porcelain"
  const LastCommit := "log --oneline -1"
  const Remotes := "remote -v"
  const StatusCommands := [CommandLine(ShowCurrent), CommandLine(Porcelain), CommandLine(LastCommit), CommandLine(Remotes)]

  /** Reported as the current branch when `--show-current` prints nothing. */
  const Detached := "detached HEAD"

  datatype RepoStatus = RepoStatus(
    currentBranch: string,
    hasChanges: bool,
    lastCommit: Option<string>,
    remoteStatus: Option<string>,
    isClean: bool,
    statusDetails: string)

  /** The current branch `getRepoStatus` reports for an answer to
      `git branch --show-current`. */
  function CurrentBranchOf(c: Call): (b: string)
    ensures b != ""
    ensures Out(c) == "" ==> b == Detached
    ensures Out(c) != "" ==> b == Out(c)
  {
    if Out(c) != "" then Out(c) else Detached
  }

  /** The status record derived from the answers to the four status commands. */
  function StatusOf(branch: Call, porcelain: Call, log: Call, remote: Call): (st: RepoStatus)
    ensures st.currentBranch != ""
    ensures Out(branch) == "" ==> st.currentBranch == Detached
    ensures Out(branch) != "" ==> st.currentBranch == Out(branch)
    ensures st.hasChanges <==> Out(porcelain) != ""
    ensures st.isClean <==> !st.hasChanges
    ensures st.statusDetails == Out(porcelain)
    ensures st.lastCommit.None? <==> log.exit.Crashed?
    ensures st.lastCommit.Some? ==> st.lastCommit.value == Out(log)
    ensures st.remoteStatus.None? <==> remote.exit.Crashed?
    ensures st.remoteStatus.Some? ==> st.remoteStatus.value == Out(remote)
  {
    var current := CurrentBranchOf(branch);
    var hasChanges := |Out(porcelain)| > 0;
    RepoStatus(
      current,
      hasChanges,
      if log.exit.Exited? then Some(Out(log)) else None,
      if remote.exit.Exited? then Some(Out(remote)) else None,
      !hasChanges,
      Out(porcelain))
  }

  /** `getRepoStatus(projectPath)`: the current branch and the porcelain status
      are required; the last commit and the remotes are optional. */
  function GetRepoStatus<S>(host: Host<S>, s: S, dir: string): (r: Run<RepoStatus, S>)
    ensures Replays(host, dir, s, r.log, r.state)
    ensures 1 <= |r.log| && Follows(r.log, StatusCommands)
    ensures r.result.Ok? <==> |r.log| == 4
    ensures r.result.Ok? ==> r.result.value == StatusOf(r.log[0], r.log[1], r.log[2], r.log[3])
    ensures r.result.Ok? <==> r.log[0].exit.Exited? && |r.log| >= 2 && r.log[1].exit.Exited?
    ensures r.result.Err? ==> 1 <= |r.log| <= 2 && Shape(dir, Last(r.log)).Err?
                              && r.result.error == Shape(dir, Last(r.log)).error
  {
    var b := ExecuteGitCommand(host, s, ShowCurrent, dir);
    var c0 := b.log[0];
    if b.result.Err? then
      FollowsFour(StatusCommands, [c0]);
      Run(Err(b.result.error), b.state, [c0])
    else
      var p := ExecuteGitCommand(host, b.state, Porcelain, dir);
      var c1 := p.log[0];
      ReplaysAppend(host, dir, s, [c0], b.state, [c1], p.state);
      if p.result.Err? then
        FollowsFour(StatusCommands, [c0, c1]);
        Run(Err(p.result.error), p.state, [c0, c1])
      else
        var l := ExecuteGitCommand(host, p.state, LastCommit, dir);
        var m := ExecuteGitCommand(host, l.state, Remotes, dir);
        var c2 := l.log[0];
        var c3 := m.log[0];
        FollowsFour(StatusCommands, [c0, c1, c2, c3]);
        ReplaysAppend(host, dir, l.state, [c3], m.state, [], m.state);
        ReplaysAppend(host, dir, p.state, [c2], l.state, [c3], m.state);
        ReplaysAppend(host, dir, s, [c0, c1], p.state, [c2, c3], m.state);
        Run(Ok(StatusOf(c0, c1, c2, c3)), m.state, [c0, c1, c2, c3])
  }

  /** A second status read right after the first returns the same record when
      the status commands do not change the repository. */
  lemma StatusReadIsStable<S(!new)>(host: Host<S>, s: S, dir: string)
    requires ReadOnly(host, dir, StatusCommands)
    ensures GetRepoStatus(host, s, dir).state == s
    ensures GetRepoStatus(host, GetRepoStatus(host, s, dir).state, dir) == GetRepoStatus(host, s, dir)
  {
    var r := GetRepoStatus(host, s, dir);
    forall i | 0 <= i < |r.log| ensures r.log[i].command in StatusCommands {
    }
    ReadOnlyReplayKeepsState(host, dir, StatusCommands, s, r.log, r.state);
  }

  // ---------------------------------------------------------------------
  // listBranches

  const ListCommands := [CommandLine("branch"), CommandLine(ShowCurrent), CommandLine("branch -r")]

  /** The listing derived from the answers to the three listing commands. */
  function ListingOf(branch: Call, current: Call, remote: Call): Listing {
    MakeListing(Out(branch), Out(current), if remote.exit.Exited? then Some(Out(remote)) else None)
  }

  /** `listBranches(projectPath)`: the local list and the current branch are
      required; a failing `git branch -r` contributes no remote names. */
  function ListBranches<S>(host: Host<S>, s: S, dir: string): (r: Run<Listing, S>)
    ensures Replays(host, dir, s, r.log, r.state)
    ensures 1 <= |r.log| && Follows(r.log, ListCommands)
    ensures r.result.Ok? <==> |r.log| == 3
    ensures r.result.Ok? <==> r.log[0].exit.Exited? && |r.log| >= 2 && r.log[1].exit.Exited?
    ensures r.result.Ok? ==> r.result.value == ListingOf(r.log[0], r.log[1], r.log[2])
    ensures r.result.Ok? && r.log[2].exit.Crashed? ==> r.result.value.remote == []
    ensures r.result.Ok? ==> r.result.value.current == Out(r.log[1])
    ensures r.result.Err? ==> 1 <= |r.log| <= 2 && Shape(dir, Last(r.log)).Err?
                              && r.result.error == Shape(dir, Last(r.log)).error
  {
    var b := ExecuteGitCommand(host, s, "branch", dir);
    var c0 := b.log[0];
    if b.result.Err? then
      FollowsFour(ListCommands, [c0]);
      Run(Err(b.result.error), b.state, [c0])
    else
      var c := ExecuteGitCommand(host, b.state, ShowCurrent, dir);
      var c1 := c.log[0];
      ReplaysAppend(host, dir, s, [c0], b.state, [c1], c.state);
      if c.result.Err? then
        FollowsFour(ListCommands, [c0, c1]);
        Run(Err(c.result.error), c.state, [c0, c1])
      else
        var m := ExecuteGitCommand(host, c.state, "branch -r", dir);
        var c2 := m.log[0];
        ReplaysAppend(host, dir, s, [c0, c1], c.state, [c2], m.state);
        FollowsFour(ListCommands, [c0, c1, c2]);
        Run(Ok(ListingOf(c0, c1, c2)), m.state, [c0, c1, c2])
  }

  /** A second listing right after the first returns the same listing when
      the listing commands do not change the repository. */
  lemma ListBranchesIsStable<S(!new)>(host: Host<S>, s: S, dir: string)
    requires ReadOnly(host, dir, ListCommands)
    ensures ListBranches(host, s, dir).state == s
    ensures ListBranches(host, ListBranches(host, s, dir).state, dir) == ListBranches(host, s, dir)
  {
    var r := ListBranches(host, s, dir);
    forall i | 0 <= i < |r.log| ensures r.log[i].command in ListCommands {
    }
    ReadOnlyReplayKeepsState(host, dir, ListCommands, s, r.log, r.state);
  }

  // ---------------------------------------------------------------------
  // getGitVersion and validateRepository

  const VersionCommand := CommandLine("--version")
  const StatusCommand := CommandLine("status")

  /** Reported by `getGitVersion` when `git --version` fails. */
  const UnknownVersion := "Versão desconhecida"

  /** The version `getGitVersion` reports for an answer to `git --version`:
      its output, or a fixed placeholder when the command failed. */
  function VersionOf(c: Call): (v: string)
    ensures c.exit.Exited? ==> v == Out(c)
    ensures c.exit.Crashed? ==> v == UnknownVersion
  {
    if c.exit.Exited? then Out(c) else UnknownVersion
  }

  /** `getGitVersion(projectPath)`: never fails. */
  function GetGitVersion<S>(host: Host<S>, s: S, dir: string): (r: Run<string, S>)
    ensures Replays(host, dir, s, r.log, r.state)
    ensures |r.log| == 1 && r.log[0].command == VersionCommand
    ensures r.result.Ok?
    ensures r.result.value == VersionOf(r.log[0])
  {
    var v := ExecuteGitCommand(host, s, "--version", dir);
    Run(Ok(if v.result.Ok? then v.result.value.stdout else UnknownVersion), v.state, v.log)
  }

  datatype Validation = Validation(isValid: bool, path: string, gitVersion: string, message: string)

  const ValidMessage := "Valid Git repository"
  const NoGitDirectoryMessage := "Not a valid Git repository (.git not found)"
  const GitNotInstalledMessage := "Git is not installed or not in PATH"

  function PathMissingMessage(p: string): string { "Path does not exist: " + p }
  function NotDirectoryMessage(p: string): string { "Path is not a directory: " + p }

  /** `path.join(p, '.git')` for a path that needs no normalisation: a `/` is
      inserted unless `p` is empty or already ends in one, so `.git` names an
      entry directly under `p`. */
  function JoinGit(p: string): (r: string)
    ensures r == p + ".git" || r == p + "/.git"
    ensures p != "" && p[|p| - 1] != '/' ==> r == p + "/.git"
    ensures p == "" || p[|p| - 1] == '/' ==> r == p + ".git"
    ensures ".git" <= r[|r| - 4..]
  {
    if p == "" then ".git"
    else if p[|p| - 1] == '/' then p + ".git"
    else p + "/.git"
  }

  /** For a non-empty path the `.git` entry is a whole segment: a `/` stands
      right before it, so it lies directly under `p`. */
  lemma JoinGitIsDirectChild(p: string)
    requires p != ""
    ensures |JoinGit(p)| >= 5 && JoinGit(p)[|JoinGit(p)| - 5] == '/'
  {
    var r := JoinGit(p);
    if p[|p| - 1] == '/' {
      assert r[|r| - 5] == p[|p| - 1];
    } else {
      assert r[|r| - 5] == "/.git"[0];
    }
  }

  /** The three filesystem checks pass: `p` exists, is a directory, and holds `.git`. */
  predicate LooksLikeRepository(fs: FileSystem, p: string) {
    p in fs.paths && p in fs.directories && JoinGit(p) in fs.paths
  }

  /** `validateRepository(projectPath)`: the filesystem checks, then `git status`,
      then `git --version`, the first failure deciding the error; on success a
      second `git --version` supplies the reported version. */
  function ValidateRepository<S>(host: Host<S>, s: S, p: string): (r: Run<Validation, S>)
    ensures Replays(host, p, s, r.log, r.state)
    ensures Follows(r.log, [StatusCommand, VersionCommand, VersionCommand])
    ensures p !in host.fs.paths ==> r == Run(Err(Thrown(PathMissingMessage(p))), s, [])
    ensures p in host.fs.paths && p !in host.fs.directories ==> r == Run(Err(Thrown(NotDirectoryMessage(p))), s, [])
    ensures p in host.fs.paths && p in host.fs.directories && JoinGit(p) !in host.fs.paths
            ==> r == Run(Err(Thrown(NoGitDirectoryMessage)), s, [])
    ensures LooksLikeRepository(host.fs, p) ==> |r.log| >= 1
    ensures LooksLikeRepository(host.fs, p) && r.log[0].exit.Crashed?
            ==> |r.log| == 1 && r.result.Err? && r.result.error == Shape(p, r.log[0]).error
    ensures LooksLikeRepository(host.fs, p) && r.log[0].exit.Exited?
            ==> |r.log| >= 2 && (r.log[1].exit.Crashed? <==> r.result == Err(Thrown(GitNotInstalledMessage)))
    ensures r.result.Ok? <==> |r.log| == 3
    ensures r.result.Ok? <==> LooksLikeRepository(host.fs, p) && r.log[0].exit.Exited? && r.log[1].exit.Exited?
    ensures r.result.Ok? ==> r.result.value.isValid && r.result.value.path == p
                             && r.result.value.message == ValidMessage
                             && r.result.value.gitVersion == VersionOf(r.log[2])
  {
    if p !in host.fs.paths then Run(Err(Thrown(PathMissingMessage(p))), s, [])
    else if p !in host.fs.directories then Run(Err(Thrown(NotDirectoryMessage(p))), s, [])
    else if JoinGit(p) !in host.fs.paths then Run(Err(Thrown(NoGitDirectoryMessage)), s, [])
    else
      var st := ExecuteGitCommand(host, s, "status", p);
      var c0 := st.log[0];
      if st.result.Err? then
        FollowsFour([StatusCommand, VersionCommand, VersionCommand], [c0]);
        Run(Err(st.result.error), st.state, [c0])
      else
        var probe := ExecuteGitCommand(host, st.state, "--version", p);
        var c1 := probe.log[0];
        ReplaysAppend(host, p, s, [c0], st.state, [c1], probe.state);
        if probe.result.Err? then
          FollowsFour([StatusCommand, VersionCommand, VersionCommand], [c0, c1]);
          Run(Err(Thrown(GitNotInstalledMessage)), probe.state, [c0, c1])
        else
          var version := GetGitVersion(host, probe.state, p);
          var c2 := version.log[0];
          ReplaysAppend(host, p, s, [c0, c1], probe.state, [c2], version.state);
          FollowsFour([StatusCommand, VersionCommand, VersionCommand], [c0, c1, c2]);
          Run(Ok(Validation(true, p, version.result.value, ValidMessage)), version.state, [c0, c1, c2])
  }

  /** When `git status` fails, its translated error is what validation reports,
      and `git --version` is never run. */
  lemma StatusFailureWins<S>(host: Host<S>, s: S, p: string)
    requires LooksLikeRepository(host.fs, p)
    requires Ask(host, s, p, StatusCommand).0.Crashed?
    ensures var r := ValidateRepository(host, s, p);
            var e := Ask(host, s, p, StatusCommand).0;
            && Commands(r.log) == [StatusCommand]
            && r.result == Err(GitFailure(e.message, e.stderr,
                                          if e.code != "" then e.code else DefaultCode,
                                          CommandDetails(StatusCommand, p, Trim(e.stderr), Trim(e.stdout))))
            && r.result.error.Message() == ParseGitError(e.message, e.stderr)
  {
    var r := ValidateRepository(host, s, p);
    assert Commands(r.log)[0] == StatusCommand;
  }

  // ---------------------------------------------------------------------
  // createBranch

  /** What `createBranch` learns before deciding whether to create anything. */
  datatype Preflight = Preflight(validation: Validation, status: RepoStatus, branches: Listing)

  /** The commands that only read the repository: all that validation, the
      status read and the listing issue. */
  const ReadCommands := [StatusCommand, VersionCommand] + StatusCommands + ListCommands

  /** Steps 2 and 3 of `createBranch` on a validated repository: read the
      status, then list branches; seven commands when both succeed. */
  function Inspect<S>(host: Host<S>, s: S, p: string): (r: Run<(RepoStatus, Listing), S>)
    ensures Replays(host, p, s, r.log, r.state)
    ensures forall i :: 0 <= i < |r.log| ==> r.log[i].command in ReadCommands
    ensures r.result.Ok? <==> |r.log| == 7
    ensures 1 <= |r.log| <= 7
    ensures r.result.Ok? ==>
              && r.result.value.0 == StatusOf(r.log[0], r.log[1], r.log[2], r.log[3])
              && r.result.value.1 == ListingOf(r.log[4], r.log[5], r.log[6])
  {
    var st := GetRepoStatus(host, s, p);
    if st.result.Err? then
      InspectCommands(st.log, []);
      assert st.log + [] == st.log;
      Run(Err(st.result.error), st.state, st.log)
    else
      var l := ListBranches(host, st.state, p);
      ReplaysAppend(host, p, s, st.log, st.state, l.log, l.state);
      InspectCommands(st.log, l.log);
      InspectLayout(st.log, l.log);
      var log := st.log + l.log;
      if l.result.Err? then Run(Err(l.result.error), l.state, log)
      else Run(Ok((st.result.value, l.result.value)), l.state, log)
  }

  /** Where the status and listing answers sit in the combined log. */
  lemma InspectLayout(a: seq<Call>, b: seq<Call>)
    requires |a| == 4 && 1 <= |b| <= 3
    ensures var log := a + b;
            && 5 <= |log| <= 7
            && log[0] == a[0] && log[1] == a[1] && log[2] == a[2] && log[3] == a[3]
            && (|b| == 3 ==> log[4] == b[0] && log[5] == b[1] && log[6] == b[2])
  {
  }

  /** Status and listing commands are read commands. */
  lemma InspectCommands(a: seq<Call>, b: seq<Call>)
    requires Follows(a, StatusCommands)
    requires Follows(b, ListCommands)
    ensures forall i :: 0 <= i < |a + b| ==> (a + b)[i].command in ReadCommands
  {
    var log := a + b;
    forall i | 0 <= i < |log| ensures log[i].command in ReadCommands {
      if i < |a| {
        assert log[i] == a[i];
      } else {
        assert log[i] == b[i - |a|];
      }
    }
  }

  /** Steps 1 to 3 of `createBranch`: validate, read the status, list branches.
      A full survey issues ten commands: three for validation, four for the
      status and three for the listing. */
  function Survey<S>(host: Host<S>, s: S, p: string): (r: Run<Preflight, S>)
    ensures Replays(host, p, s, r.log, r.state)
    ensures forall i :: 0 <= i < |r.log| ==> r.log[i].command in ReadCommands
    ensures !LooksLikeRepository(host.fs, p) ==> r.result.Err? && r.log == [] && r.state == s
    ensures |r.log| <= 10
    ensures r.result.Ok? <==> |r.log| == 10
    ensures r.result.Ok? ==>
              && r.result.value.validation == Validation(true, p, VersionOf(r.log[2]), ValidMessage)
              && r.result.value.status == StatusOf(r.log[3], r.log[4], r.log[5], r.log[6])
              && r.result.value.branches == ListingOf(r.log[7], r.log[8], r.log[9])
  {
    var v := ValidateRepository(host, s, p);
    if v.result.Err? then
      SurveyCommands(v.log, []);
      assert v.log + [] == v.log;
      Run(Err(v.result.error), v.state, v.log)
    else
      var i := Inspect(host, v.state, p);
      ReplaysAppend(host, p, s, v.log, v.state, i.log, i.state);
      SurveyCommands(v.log, i.log);
      var log := v.log + i.log;
      if i.result.Err? then Run(Err(i.result.error), i.state, log)
      else
        SurveyLayout(v.log, i.log);
        Run(Ok(Preflight(v.result.value, i.result.value.0, i.result.value.1)), i.state, log)
  }

  /** Where each step's answers sit in a full survey's log. */
  lemma SurveyLayout(a: seq<Call>, b: seq<Call>)
    requires |a| == 3 && |b| == 7
    ensures var log := a + b;
            && |log| == 10 && log[2] == a[2]
            && log[3] == b[0] && log[4] == b[1] && log[5] == b[2] && log[6] == b[3]
            && log[7] == b[4] && log[8] == b[5] && log[9] == b[6]
  {
  }

  lemma SurveyCommands(a: seq<Call>, b: seq<Call>)
    requires Follows(a, [StatusCommand, VersionCommand, VersionCommand])
    requires forall i :: 0 <= i < |b| ==> b[i].command in ReadCommands
    ensures forall i :: 0 <= i < |a + b| ==> (a + b)[i].command in ReadCommands
  {
    var log := a + b;
    forall i | 0 <= i < |log| ensures log[i].command in ReadCommands {
      if i < |a| {
        assert log[i] == a[i];
      } else {
        assert log[i] == b[i - |a|];
      }
    }
  }

  datatype BranchCreation = BranchCreation(
    branchName: string,
    previousBranch: string,
    currentBranch: string,
    created: bool,
    checkedOut: bool,
    message: string)

  function AlreadyExistsMessage(name: string): string {
    "Branch \"" + name + "\" already exists"
  }

  /** The command that creates the branch: `checkout -b` switches to it as well. */
  function CreateCommand(name: string, autoCheckout: bool): string {
    if autoCheckout then "checkout -b \"" + name + "\"" else "branch \"" + name + "\""
  }

  /** The success message, naming the new branch and the branch it started from. */
  function CreationMessage(name: string, previous: string, autoCheckout: bool): (m: string)
    ensures "Branch \"" + name + "\" criado " <= m
    ensures autoCheckout ==> EndsWith(m, Quoted(previous))
    ensures !autoCheckout ==> EndsWith(m, Quoted(previous) + NoCheckoutNote)
    ensures Contains(m, Quoted(previous))
    ensures autoCheckout <==> m[|m| - 1] == '"'
  {
    var head := "Branch \"" + name + "\" criado ";
    if autoCheckout then
      var m := head + "e ativo a partir de " + Quoted(previous);
      ContainsAt(m, Quoted(previous), |m| - |Quoted(previous)|);
      m
    else
      var m := head + "a partir de " + Quoted(previous) + NoCheckoutNote;
      assert Quoted(previous) <= m[|m| - |Quoted(previous) + NoCheckoutNote|..];
      ContainsAt(m, Quoted(previous), |m| - |Quoted(previous) + NoCheckoutNote|);
      m
  }

  /** A name in double quotes, as the messages show branch names. */
  function Quoted(name: string): string {
    "\"" + name + "\""
  }

  const NoCheckoutNote := " (sem checkout)"

  /** The line that creates a branch is none of the lines that only read. */
  lemma CreateCommandIsNotARead(name: string, autoCheckout: bool)
    ensures CommandLine(CreateCommand(name, autoCheckout)) !in ReadCommands
  {
    var line := CommandLine(CreateCommand(name, autoCheckout));
    if autoCheckout {
      assert line[4] == 'c';
    } else {
      assert line[11] == '"';
      assert |line| > |CommandLine("branch")|;
    }
  }

  /** Steps 4 and 5 of `createBranch`, once the name is known to be new: issue
      the create command, then read the status again. */
  function Create<S>(host: Host<S>, s: S, name: string, p: string, autoCheckout: bool, previous: string): (r: Run<BranchCreation, S>)
    ensures Replays(host, p, s, r.log, r.state)
    ensures 1 <= |r.log| <= 3 || |r.log| == 5
    ensures r.log[0].command == CommandLine(CreateCommand(name, autoCheckout))
    ensures forall i :: 1 <= i < |r.log| ==> r.log[i].command in StatusCommands
    ensures r.log[0].exit.Crashed? ==> |r.log| == 1 && r.result == Err(Shape(p, r.log[0]).error)
    ensures r.result.Err? ==> Shape(p, Last(r.log)).Err? && r.result == Err(Shape(p, Last(r.log)).error)
    ensures r.result.Ok? <==> |r.log| == 5
    ensures r.result.Ok? ==>
              && r.log[0].exit.Exited?
              && r.result.value.branchName == name
              && r.result.value.previousBranch == previous
              && r.result.value.currentBranch == CurrentBranchOf(r.log[1])
              && r.result.value.created
              && r.result.value.checkedOut == autoCheckout
              && r.result.value.message == CreationMessage(name, previous, autoCheckout)
  {
    var made := ExecuteGitCommand(host, s, CreateCommand(name, autoCheckout), p);
    if made.result.Err? then Run(Err(made.result.error), made.state, made.log)
    else
      var after := GetRepoStatus(host, made.state, p);
      ReplaysAppend(host, p, s, made.log, made.state, after.log, after.state);
      var log := made.log + after.log;
      CreateLayout(made.log, after.log);
      if after.result.Err? then Run(Err(after.result.error), after.state, log)
      else
        Run(Ok(BranchCreation(name, previous, after.result.value.currentBranch, true, autoCheckout,
                              CreationMessage(name, previous, autoCheckout))),
            after.state, log)
  }

  /** The create call followed by a status read: the status commands come
      after the first call. */
  lemma CreateLayout(a: seq<Call>, b: seq<Call>)
    requires |a| == 1 && 1 <= |b| && Follows(b, StatusCommands)
    ensures var log := a + b;
            && |log| == 1 + |b| && log[0] == a[0] && log[1] == b[0] && Last(log) == Last(b)
            && forall i :: 1 <= i < |log| ==> log[i].command in StatusCommands
  {
    var log := a + b;
    forall i | 1 <= i < |log| ensures log[i].command in StatusCommands {
      assert log[i] == b[i - 1];
    }
  }

  /** A log of reads holds no creating command. */
  lemma NoCreateAmongReads(log: seq<Call>, line: string)
    requires forall i :: 0 <= i < |log| ==> log[i].command in ReadCommands
    requires line !in ReadCommands
    ensures forall i :: 0 <= i < |log| ==> log[i].command != line
  {
  }

  /** In a log of ten reads followed by the create command and at most four
      status reads, the create command occurs exactly once, at index 10, and
      the survey's answers keep their places. */
  lemma CreateIsEleventh(a: seq<Call>, b: seq<Call>, line: string)
    requires |a| == 10 && 1 <= |b| <= 5
    requires forall i :: 0 <= i < |a| ==> a[i].command in ReadCommands
    requires line !in ReadCommands && b[0].command == line
    requires forall i :: 1 <= i < |b| ==> b[i].command in StatusCommands
    ensures var log := a + b;
            && log[3] == a[3] && log[7] == a[7] && log[8] == a[8] && log[9] == a[9]
            && (|b| > 1 ==> log[11] == b[1]) && Last(log) == Last(b)
    ensures forall i :: 0 <= i < |a + b| ==> ((a + b)[i].command == line <==> i == 10)
  {
    assert ReadCommands[2..6] == StatusCommands;
    forall i | 0 <= i < |a + b| ensures (a + b)[i].command == line <==> i == 10 {
      if i < 10 {
        assert (a + b)[i] == a[i];
      } else {
        assert (a + b)[i] == b[i - 10];
      }
    }
  }

  /** `createBranch(branchName, projectPath, autoCheckout)`. The survey runs
      first (validation, status, listing: ten reads when all succeed), and its
      failure is the operation's failure. A name the listing already holds is
      refused after exactly those ten reads. Otherwise the eleventh call, and no
      other, is the creating command; on success four status reads follow, and
      the record names the branch read before and the branch read after. */
  function CreateBranch<S>(host: Host<S>, s: S, name: string, p: string, autoCheckout: bool): (r: Run<BranchCreation, S>)
    ensures Replays(host, p, s, r.log, r.state)
    ensures !LooksLikeRepository(host.fs, p) ==> r.result.Err? && r.log == [] && r.state == s
    ensures Survey(host, s, p).result.Err? <==> |r.log| < 10
    ensures |r.log| < 10 ==> r.result == Err(Survey(host, s, p).result.error)
    ensures |r.log| <= 10 ==> forall i :: 0 <= i < |r.log| ==> r.log[i].command in ReadCommands
    ensures |r.log| >= 10 ==> (|r.log| == 10 <==> name in ListingOf(r.log[7], r.log[8], r.log[9]).all)
    ensures |r.log| == 10 ==> r.result == Err(Thrown(AlreadyExistsMessage(name)))
    ensures forall i :: 0 <= i < |r.log| ==>
              (r.log[i].command == CommandLine(CreateCommand(name, autoCheckout)) <==> i == 10)
    ensures r.result.Ok? <==> |r.log| == 15
    ensures 10 < |r.log| < 15 ==> Shape(p, Last(r.log)).Err? && r.result == Err(Shape(p, Last(r.log)).error)
    ensures r.result.Ok? ==>
              && r.result.value.branchName == name
              && r.result.value.created
              && r.result.value.checkedOut == autoCheckout
              && r.result.value.previousBranch == CurrentBranchOf(r.log[3])
              && r.result.value.currentBranch == CurrentBranchOf(r.log[11])
              && r.result.value.message == CreationMessage(name, r.result.value.previousBranch, autoCheckout)
  {
    var sv := Survey(host, s, p);
    var line := CommandLine(CreateCommand(name, autoCheckout));
    CreateCommandIsNotARead(name, autoCheckout);
    if sv.result.Err? then
      NoCreateAmongReads(sv.log, line);
      Run(Err(sv.result.error), sv.state, sv.log)
    else if name in sv.result.value.branches.all then
      NoCreateAmongReads(sv.log, line);
      Run(Err(Thrown(AlreadyExistsMessage(name))), sv.state, sv.log)
    else
      var c := Create(host, sv.state, name, p, autoCheckout, sv.result.value.status.currentBranch);
      ReplaysAppend(host, p, s, sv.log, sv.state, c.log, c.state);
      CreateIsEleventh(sv.log, c.log, line);
      Run(c.result, c.state, sv.log + c.log)
  }

  /** A name that is already listed is refused without creating anything: every
      command issued only reads, so when reads leave the repository alone the
      repository is exactly as it was. */
  lemma CollisionChangesNothing<S(!new)>(host: Host<S>, s: S, name: string, p: string, autoCheckout: bool)
    requires Survey(host, s, p).result.Ok? && name in Survey(host, s, p).result.value.branches.all
    ensures var r := CreateBranch(host, s, name, p, autoCheckout);
            && r.result == Err(Thrown(AlreadyExistsMessage(name)))
            && CommandLine(CreateCommand(name, autoCheckout)) !in Commands(r.log)
            && (ReadOnly(host, p, ReadCommands) ==> r.state == s)
  {
    var r := CreateBranch(host, s, name, p, autoCheckout);
    if ReadOnly(host, p, ReadCommands) {
      ReadOnlyReplayKeepsState(host, p, ReadCommands, s, r.log, r.state);
    }
  }

  /** On success the survey succeeded and found the name new, and the record's
      previous branch is the one the survey's status read reported. */
  lemma SuccessCreatesOnce<S>(host: Host<S>, s: S, name: string, p: string, autoCheckout: bool)
    requires CreateBranch(host, s, name, p, autoCheckout).result.Ok?
    ensures var r := CreateBranch(host, s, name, p, autoCheckout);
            var sv := Survey(host, s, p);
            && sv.result.Ok? && name !in sv.result.value.branches.all
            && r.result.value.previousBranch == sv.result.value.status.currentBranch
            && r.log[..10] == sv.log
  {
  }
}
