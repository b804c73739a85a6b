/** The loop of `alfred` over the selected repositories together with
    `bash`. Spawning the child process is replaced by an oracle that gives
    each execution's exit code. Every execution records its position in the
    batch, so a repository selected twice may succeed once and fail the
    second time. A non-zero exit rejects the promise that the loop awaits
    without a catch, so the loop ends at the first failing repository. */
module Batch {
  import opened Wrappers
  import opened Repos

  /** One child process: its position in the batch (0 for the first), the
      selected name, the working directory it is given (`None` is
      `undefined`: the child inherits the assistant's own working directory)
      and the command string. */
  datatype Execution = Execution(step: nat, repo: string, cwd: Option<string>, command: string)

  /** `exec(command, { cwd: repoLocations[repo] })` as the batch's
      `step`-th child. */
  function ExecutionFor(step: nat, repo: string, repos: RepoList, command: string): Execution {
    Execution(step, repo, Lookup(repos, repo), command)
  }

  /** The executions in selection order: every repository up to and
      including the first one whose command exits non-zero. */
  ghost predicate StopsAtFirstFailure(targets: seq<string>, repos: RepoList, command: string,
                                      exitCode: Execution -> int, runs: seq<Execution>) {
    StopsAtFirstFailureFrom(0, targets, repos, command, exitCode, runs)
  }

  /** The same for the part of a batch that starts at position `from`. */
  ghost predicate StopsAtFirstFailureFrom(from: nat, targets: seq<string>, repos: RepoList, command: string,
                                          exitCode: Execution -> int, runs: seq<Execution>) {
    && |runs| <= |targets|
    && (forall i :: 0 <= i < |runs| ==> runs[i] == ExecutionFor(from + i, targets[i], repos, command))
    && (forall i :: 0 <= i < |runs| - 1 ==> exitCode(runs[i]) == 0)
    && (|runs| < |targets| ==> |runs| > 0 && exitCode(runs[|runs| - 1]) != 0)
  }

  function Executed(targets: seq<string>, repos: RepoList, command: string,
                    exitCode: Execution -> int): (runs: seq<Execution>)
    ensures StopsAtFirstFailure(targets, repos, command, exitCode, runs)
  {
    ExecutedFrom(0, targets, repos, command, exitCode)
  }

  /** The executions of the batch from position `from` on. */
  function ExecutedFrom(from: nat, targets: seq<string>, repos: RepoList, command: string,
                        exitCode: Execution -> int): (runs: seq<Execution>)
    ensures StopsAtFirstFailureFrom(from, targets, repos, command, exitCode, runs)
    decreases |targets|
  {
    if |targets| == 0 then []
    else
      var e := ExecutionFor(from, targets[0], repos, command);
      if exitCode(e) != 0 then [e]
      else [e] + ExecutedFrom(from + 1, targets[1..], repos, command, exitCode)
  }

  /** Only one sequence of executions stops at the first failure. */
  lemma {:induction false} StopsAtFirstFailureUnique(targets: seq<string>, repos: RepoList, command: string,
                                                    exitCode: Execution -> int, a: seq<Execution>, b: seq<Execution>)
    requires StopsAtFirstFailure(targets, repos, command, exitCode, a)
    requires StopsAtFirstFailure(targets, repos, command, exitCode, b)
    ensures a == b
  {
    if |a| != |b| {
      assert false;
    } else {
      assert forall i :: 0 <= i < |a| ==> a[i] == b[i];
    }
  }

  /** The loop itself: runs the command in each selected repository in
      turn and reports whether it stopped on a failure. */
  method RunBatch(targets: seq<string>, repos: RepoList, command: string,
                  exitCode: Execution -> int) returns (runs: seq<Execution>, failed: bool)
    ensures runs == Executed(targets, repos, command, exitCode)
    ensures failed <==> |runs| > 0 && exitCode(runs[|runs| - 1]) != 0
    ensures !failed ==> |runs| == |targets|
  {
    runs := [];
    failed := false;
    var i := 0;
    while i < |targets| && !failed
      invariant 0 <= i <= |targets| && |runs| == i
      invariant forall j :: 0 <= j < i ==> runs[j] == ExecutionFor(j, targets[j], repos, command)
      invariant forall j :: 0 <= j < i - 1 ==> exitCode(runs[j]) == 0
      invariant failed <==> i > 0 && exitCode(runs[i - 1]) != 0
    {
      var e := ExecutionFor(i, targets[i], repos, command);
      runs := runs + [e];
      failed := exitCode(e) != 0;
      i := i + 1;
    }
    StopsAtFirstFailureUnique(targets, repos, command, exitCode, runs, Executed(targets, repos, command, exitCode));
  }

  /** A failing repository ends the batch: the repositories after it are
      never run, even when they would have succeeded. */
  lemma FailureEndsBatch(targets: seq<string>, repos: RepoList, command: string,
                         exitCode: Execution -> int, k: nat)
    requires k < |targets|
    requires forall i :: 0 <= i < k ==> exitCode(ExecutionFor(i, targets[i], repos, command)) == 0
    requires exitCode(ExecutionFor(k, targets[k], repos, command)) != 0
    ensures |Executed(targets, repos, command, exitCode)| == k + 1
  {
    var runs := Executed(targets, repos, command, exitCode);
    if |runs| < k + 1 {
      assert false;
    } else if |runs| > k + 1 {
      assert false;
    }
  }

  /** A repository selected twice runs twice, and the second run may fail
      where the first succeeded, as `git checkout -b` does when the branch
      already exists. */
  lemma RepeatedSelectionMayFailSecond(repos: RepoList, command: string)
    ensures var exitCode := (e: Execution) => if e.step == 0 then 0 else 128;
      && Executed(["a", "a"], repos, command, exitCode)
         == [ExecutionFor(0, "a", repos, command), ExecutionFor(1, "a", repos, command)]
      && exitCode(Executed(["a", "a"], repos, command, exitCode)[1]) != 0
  {
    var exitCode := (e: Execution) => if e.step == 0 then 0 else 128;
    assert ["a", "a"][1..] == ["a"];
    assert ExecutedFrom(1, ["a"], repos, command, exitCode) == [ExecutionFor(1, "a", repos, command)];
  }
}
