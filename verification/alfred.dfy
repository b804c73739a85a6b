/** The assistant's entry points: `initialize`, the management commands
    `alfredCommand` runs, and `alfred`, which turns an argument list into
    either a usage error or a batch of git executions. */
module Alfred {
  import opened Wrappers
  import opened Tokens
  import opened Repos
  import opened ConfigStore
  import opened Dispatch
  import opened Translate
  import opened Select
  import opened Discovery
  import opened Setup
  import opened Batch

  /** The in-memory fields after start-up and the configuration file. */
  datatype Startup = Startup(config: Config, file: Option<StoredConfig>)

  /** `initialize` exactly as written: after the first-run wizard has saved
      its answers, the fields are never read back and keep their defaults
      (Wayne, sir, no repositories) for the rest of the invocation. `None`:
      the wizard never finished. */
  function InitializeAsWritten(file: Option<StoredConfig>, lines: seq<string>): (s: Option<Startup>)
    ensures file.Some? ==> s == Some(Startup(Load(file.value), file))
    ensures s.Some? && file.None? ==> s.value.config == Config(DefaultName, DefaultTitle, [])
    ensures file.None? ==> (s.Some? <==> Wizard(lines).Some?)
    ensures file.None? && s.Some? ==> s.value.file == Some(Save(Wizard(lines).value))
  {
    if file.Some? then Some(Startup(Load(file.value), file))
    else
      match Wizard(lines)
      case None => None
      case Some(c) => Some(Startup(Config(DefaultName, DefaultTitle, []), Some(Save(c))))
  }

  /** `initialize` as evidently intended: the fields always agree with the
      file, also right after the wizard wrote it. */
  function Initialize(file: Option<StoredConfig>, lines: seq<string>): (s: Option<Startup>)
    ensures file.Some? ==> s == Some(Startup(Load(file.value), file))
    ensures s.Some? ==> s.value.file.Some? && s.value.config == Load(s.value.file.value)
    ensures file.None? ==> (s.Some? <==> Wizard(lines).Some?)
    ensures file.None? && s.Some? ==> s.value.config == Wizard(lines).value
  {
    if file.Some? then Some(Startup(Load(file.value), file))
    else
      match Wizard(lines)
      case None => None
      case Some(c) =>
        LoadSave(c);
        Some(Startup(c, Some(Save(c))))
  }

  /** What one invocation does. */
  datatype Outcome =
    | UsageFailure(error: UsageError)
    | Managed(management: Command, effect: Effect)
    | RanBatch(command: string, runs: seq<Execution>, failed: bool)

  /** The git pipeline after `alfredCommand` fell through: translate, select,
      then run. */
  function GitPipelineOutcome(args: seq<string>, repos: RepoList, exitCode: Execution -> int): (o: Outcome)
    requires !Absent(args, 0)
    ensures o.UsageFailure? <==>
      CommandToGitCommand(args).Err? || ReposStringToArray(CommandToGitCommand(args).value.rest, repos).Err?
    ensures o.RanBatch? ==>
      && o.command == CommandToGitCommand(args).value.command
      && o.runs == Executed(ReposStringToArray(CommandToGitCommand(args).value.rest, repos).value, repos, o.command, exitCode)
      && (o.failed <==> |o.runs| > 0 && exitCode(o.runs[|o.runs| - 1]) != 0)
    ensures !o.Managed?
  {
    match CommandToGitCommand(args)
    case Err(e) => UsageFailure(e)
    case Ok(Translated(command, rest)) =>
      match ReposStringToArray(rest, repos)
      case Err(e) => UsageFailure(e)
      case Ok(targets) =>
        var runs := Executed(targets, repos, command, exitCode);
        RanBatch(command, runs, |runs| > 0 && exitCode(runs[|runs| - 1]) != 0)
  }

  /** `alfred(args)`: a management keyword is handled against the file on
      disk and ends the process; anything else is translated and run in the
      selected repositories of the loaded `config`. A usage error runs
      nothing. `lines` is the console input and `listing` the entries of the
      directory a bulk registration scans. */
  function Invoke(args: seq<string>, cwd: string, config: Config, file: Option<StoredConfig>,
                  lines: seq<string>, listing: seq<Node>, exitCode: Execution -> int): (o: Outcome)
    ensures AlfredCommand(args, cwd).Err? ==> o == UsageFailure(AlfredCommand(args, cwd).error)
    ensures AlfredCommand(args, cwd) == Ok(GitPipeline) ==> o == GitPipelineOutcome(args, config.repos, exitCode)
    ensures o.Managed? <==> AlfredCommand(args, cwd).Ok? && AlfredCommand(args, cwd) != Ok(GitPipeline)
    ensures o.Managed? ==> o.management == AlfredCommand(args, cwd).value
    ensures o.Managed? ==> o.effect == Manage(o.management, file, lines, listing)
    ensures o.RanBatch? ==> forall i :: 0 <= i < |o.runs| ==> o.runs[i].command == o.command
    ensures o.RanBatch? ==> args[0] !in ManagementKeywords
  {
    match AlfredCommand(args, cwd)
    case Err(e) => UsageFailure(e)
    case Ok(GitPipeline) => GitPipelineOutcome(args, config.repos, exitCode)
    case Ok(c) => Managed(c, Manage(c, file, lines, listing))
  }

  /** The process exit status. A usage error exits with 1. A failing
      repository leaves a rejected promise nobody handles, which ends Node
      with status 1. A management command exits with the status of its
      effect; a prompt that never returns leaves nothing pending once the
      input has ended, so Node exits with 0. */
  function ExitStatus(o: Outcome): (status: int)
    ensures status == 1 <==>
      o.UsageFailure? || (o.RanBatch? && o.failed) || (o.Managed? && o.effect.status == Some(1))
    ensures !o.Managed? ==> status == 0 || status == 1
    ensures o.Managed? && o.effect.status.None? ==> status == 0
  {
    match o
    case UsageFailure(_) => 1
    case Managed(_, effect) => if effect.status.Some? then effect.status.value else 0
    case RanBatch(_, _, failed) => if failed then 1 else 0
  }

  /** The management commands that throw, which Node reports with status 1:
      deleting one key from a file without `repos`, a bulk registration
      that finds a repository for such a file, and a reset with no file to
      unlink. */
  predicate Throws(c: Command, file: Option<StoredConfig>, listing: seq<Node>) {
    || (c.DeleteRepo? && file.Some? && c.name != AllRepos && file.value.repos.None?)
    || (c.AddDirectory? && file.Some? && file.value.repos.None? && |FindGitRepos(c.root, listing)| > 0)
    || (c.ResetConfig? && file.None?)
  }

  /** An invocation exits with 0 or 1, and with 1 exactly on a usage error,
      a failing repository, or a management command that throws. */
  lemma ExitStatusOfInvoke(args: seq<string>, cwd: string, config: Config, file: Option<StoredConfig>,
                           lines: seq<string>, listing: seq<Node>, exitCode: Execution -> int)
    ensures ExitStatus(Invoke(args, cwd, config, file, lines, listing, exitCode)) in {0, 1}
    ensures ExitStatus(Invoke(args, cwd, config, file, lines, listing, exitCode)) == 1 <==>
      || AlfredCommand(args, cwd).Err?
      || (AlfredCommand(args, cwd) == Ok(GitPipeline)
          && (GitPipelineOutcome(args, config.repos, exitCode).UsageFailure?
              || GitPipelineOutcome(args, config.repos, exitCode).failed))
      || (AlfredCommand(args, cwd).Ok? && Throws(AlfredCommand(args, cwd).value, file, listing))
  {
    var o := Invoke(args, cwd, config, file, lines, listing, exitCode);
    if o.Managed? {
      assert o.effect == Manage(o.management, file, lines, listing);
    }
  }

  /** A token outside the management keywords goes down the git pipeline. */
  lemma FallsThrough(args: seq<string>, cwd: string)
    requires |args| > 0 && args[0] != "" && args[0] !in ManagementKeywords
    ensures AlfredCommand(args, cwd) == Ok(GitPipeline)
  {
  }

  lemma GitKeywordsAreNotManagement()
    ensures "commit" !in ManagementKeywords && "pull" !in ManagementKeywords
  {
  }

  /** The pipeline's outcome, given the translation and the selection. */
  lemma PipelineSteps(args: seq<string>, cwd: string, config: Config, file: Option<StoredConfig>, lines: seq<string>, listing: seq<Node>, exitCode: Execution -> int,
                      command: string, rest: seq<string>, targets: seq<string>)
    requires AlfredCommand(args, cwd) == Ok(GitPipeline)
    requires CommandToGitCommand(args) == Ok(Translated(command, rest))
    requires ReposStringToArray(rest, config.repos) == Ok(targets)
    ensures Invoke(args, cwd, config, file, lines, listing, exitCode) == RanBatch(command, Executed(targets, config.repos, command, exitCode),
      |Executed(targets, config.repos, command, exitCode)| > 0
      && exitCode(Executed(targets, config.repos, command, exitCode)[|Executed(targets, config.repos, command, exitCode)| - 1]) != 0)
  {
  }

  lemma RunTwoSucceeding(repos: RepoList, command: string, exitCode: Execution -> int, pa: string, pb: string)
    requires repos == [Binding("a", pa), Binding("b", pb)]
    requires forall e :: exitCode(e) == 0
    ensures Executed(["a", "b"], repos, command, exitCode)
         == [Execution(0, "a", Some(pa), command), Execution(1, "b", Some(pb), command)]
  {
    assert Lookup(repos, "a") == Some(pa);
    assert Lookup(repos, "b") == Some(pb);
    assert ["a", "b"][1..] == ["b"];
    assert ExecutedFrom(1, ["b"], repos, command, exitCode) == [Execution(1, "b", Some(pb), command)];
  }

  /** `commit "fix bug" all` over a and b, both succeeding: the one commit
      command runs in a's directory and then in b's. */
  lemma CommitAllExample(cwd: string, config: Config, pa: string, pb: string,
                          file: Option<StoredConfig>, lines: seq<string>, listing: seq<Node>, exitCode: Execution -> int)
    requires config.repos == [Binding("a", pa), Binding("b", pb)]
    requires forall e :: exitCode(e) == 0
    ensures Invoke(["commit", "fix bug", "all"], cwd, config, file, lines, listing, exitCode)
         == RanBatch("git commit -m \"fix bug\"",
                     [Execution(0, "a", Some(pa), "git commit -m \"fix bug\""), Execution(1, "b", Some(pb), "git commit -m \"fix bug\"")],
                     false)
  {
    var args := ["commit", "fix bug", "all"];
    var command := "git commit -m \"fix bug\"";
    assert AlfredCommand(args, cwd) == Ok(GitPipeline) by {
      GitKeywordsAreNotManagement();
      FallsThrough(args, cwd);
    }
    assert CommandToGitCommand(args) == Ok(Translated(command, ["all"])) by {
      ArgumentKeywordTable("fix bug", ["all"]);
      assert ["commit", "fix bug"] + ["all"] == args;
      CommitFixBug();
    }
    assert ReposStringToArray(["all"], config.repos) == Ok(["a", "b"]) by {
      assert Names(config.repos) == ["a", "b"];
    }
    RunTwoSucceeding(config.repos, command, exitCode, pa, pb);
    PipelineSteps(args, cwd, config, file, lines, listing, exitCode, command, ["all"], ["a", "b"]);
  }

  lemma CommitFixBug()
    ensures "git commit -m \"" + "fix bug" + "\"" == "git commit -m \"fix bug\""
  {
  }

  /** Without any selector the command is rejected and nothing runs. */
  lemma NoSelectorRunsNothing(keyword: string, cwd: string, config: Config, file: Option<StoredConfig>, lines: seq<string>, listing: seq<Node>, exitCode: Execution -> int)
    requires keyword != "" && keyword !in ManagementKeywords && keyword !in ArgumentKeywords
    ensures Invoke([keyword], cwd, config, file, lines, listing, exitCode) == UsageFailure(MissingRepository)
    ensures ExitStatus(Invoke([keyword], cwd, config, file, lines, listing, exitCode)) == 1
  {
  }

  lemma PullAll(cwd: string, config: Config, file: Option<StoredConfig>, lines: seq<string>, listing: seq<Node>, exitCode: Execution -> int)
    ensures Invoke(["pull", "all"], cwd, config, file, lines, listing, exitCode)
         == RanBatch("git pull", Executed(Names(config.repos), config.repos, "git pull", exitCode),
              |Executed(Names(config.repos), config.repos, "git pull", exitCode)| > 0
              && exitCode(Executed(Names(config.repos), config.repos, "git pull", exitCode)[|Executed(Names(config.repos), config.repos, "git pull", exitCode)| - 1]) != 0)
  {
    GitKeywordsAreNotManagement();
    FallsThrough(["pull", "all"], cwd);
    PlainKeywordTable(["all"]);
    assert ["pull"] + ["all"] == ["pull", "all"];
    PipelineSteps(["pull", "all"], cwd, config, file, lines, listing, exitCode, "git pull", ["all"], Names(config.repos));
  }

  lemma FirstRunStartups()
    ensures InitializeAsWritten(None, ["Ann", "ma'am", "work", "/home/ann/work", "no"])
         == Some(Startup(Config(DefaultName, DefaultTitle, []),
                         Some(Save(Config("Ann", "ma'am", [Binding("work", "/home/ann/work")])))))
    ensures Initialize(None, ["Ann", "ma'am", "work", "/home/ann/work", "no"]).value.config
         == Config("Ann", "ma'am", [Binding("work", "/home/ann/work")])
  {
    WizardExample();
  }

  /** The start-up finding: on a first run that registers `work`, the code
      as written runs `pull all` nowhere, because the fields it selects from
      are still the defaults; the intended start-up runs it in `work`. */
  lemma FirstRunForgetsWizard(cwd: string, file: Option<StoredConfig>, lines: seq<string>, listing: seq<Node>, exitCode: Execution -> int)
    requires forall e :: exitCode(e) == 0
    ensures InitializeAsWritten(None, ["Ann", "ma'am", "work", "/home/ann/work", "no"]).value.config.repos == []
    ensures Invoke(["pull", "all"], cwd,
                   InitializeAsWritten(None, ["Ann", "ma'am", "work", "/home/ann/work", "no"]).value.config, file, lines, listing, exitCode)
         == RanBatch("git pull", [], false)
    ensures Initialize(None, ["Ann", "ma'am", "work", "/home/ann/work", "no"]).value.config.repos
         == [Binding("work", "/home/ann/work")]
    ensures Invoke(["pull", "all"], cwd,
                   Initialize(None, ["Ann", "ma'am", "work", "/home/ann/work", "no"]).value.config, file, lines, listing, exitCode)
         == RanBatch("git pull", [Execution(0, "work", Some("/home/ann/work"), "git pull")], false)
  {
    FirstRunStartups();
    PullAllInWork(cwd, Config(DefaultName, DefaultTitle, []), file, lines, listing, exitCode);
    PullAllInWork(cwd, Config("Ann", "ma'am", [Binding("work", "/home/ann/work")]), file, lines, listing, exitCode);
  }

  /** `pull all` runs once in `work` when that is the one registered
      repository, and nowhere when none is. */
  lemma PullAllInWork(cwd: string, config: Config, file: Option<StoredConfig>, lines: seq<string>, listing: seq<Node>, exitCode: Execution -> int)
    requires forall e :: exitCode(e) == 0
    ensures config.repos == [] ==>
      Invoke(["pull", "all"], cwd, config, file, lines, listing, exitCode) == RanBatch("git pull", [], false)
    ensures config.repos == [Binding("work", "/home/ann/work")] ==>
      Invoke(["pull", "all"], cwd, config, file, lines, listing, exitCode)
      == RanBatch("git pull", [Execution(0, "work", Some("/home/ann/work"), "git pull")], false)
  {
    PullAll(cwd, config, file, lines, listing, exitCode);
    if config.repos == [Binding("work", "/home/ann/work")] {
      assert Names(config.repos) == ["work"];
      assert Executed(["work"], config.repos, "git pull", exitCode)
          == [Execution(0, "work", Some("/home/ann/work"), "git pull")];
    }
  }

  /** How a management command ends: the file afterwards, and the exit
      status, or `None` when the process waits for console input that
      never comes. */
  datatype Effect = Effect(file: Option<StoredConfig>, status: Option<int>)

  /** The management commands. `lines` is the console input and `listing`
      the entries of the directory a bulk registration scans. */
  function Manage(c: Command, file: Option<StoredConfig>, lines: seq<string>, listing: seq<Node>): (e: Effect)
    requires !c.GitPipeline?
    ensures c.ListRepos? ==> e == Effect(file, Some(0))
    ensures c.AddRepo? && |lines| > 0 ==>
      && e.status == Some(0) && e.file.Some? && e.file.value.repos.Some?
      && Lookup(e.file.value.repos.value, c.name) == Some(Text.Trim(lines[0]))
      && (forall k :: k != c.name ==> Lookup(e.file.value.repos.value, k) == Lookup(ReposOf(file), k))
    ensures c.AddRepo? && |lines| == 0 ==> e == Effect(file, None)
    ensures c.AddRepo? && |lines| > 0 ==> e == Effect(Some(ConfigStore.AddRepo(file, c.name, Text.Trim(lines[0]))), Some(0))
    ensures c.DeleteRepo? ==> e.file == ConfigStore.DeleteRepo(file, c.name).file
    ensures c.DeleteRepo? ==> (e.status == Some(1) <==> ConfigStore.DeleteRepo(file, c.name).outcome == ReposFieldMissing)
    ensures c.DeleteRepo? ==> e.status == Some(if Throws(c, file, listing) then 1 else 0)
    ensures c.AddDirectory? && e.status == Some(0) && e.file.Some? && e.file.value.repos.Some? ==>
      forall k :: Truthy(Lookup(ReposOf(file), k)) ==> Lookup(e.file.value.repos.value, k) == Lookup(ReposOf(file), k)
    ensures c.AddDirectory? && e.status == Some(1) ==> e.file == file
    ensures c.ResetConfig? && file.None? ==> e == Effect(None, Some(1))
    ensures c.ResetConfig? && file.Some? && e.file.Some? ==>
      e.status == Some(0) && Wizard(lines).Some? && Load(e.file.value) == Wizard(lines).value
    ensures c.ResetConfig? && file.Some? && Wizard(lines).None? ==> e == Effect(None, None)
    ensures c.ResetConfig? && file.Some? && Wizard(lines).Some? ==> e == Effect(Some(Save(Wizard(lines).value)), Some(0))
    ensures c.AddDirectory? ==> (e.status == Some(1) <==> RepoAddDirectory(file, FindGitRepos(c.root, listing)).Err?)
    ensures c.AddDirectory? && RepoAddDirectory(file, FindGitRepos(c.root, listing)).Ok? ==>
      e == Effect(Some(RepoAddDirectory(file, FindGitRepos(c.root, listing)).value), Some(0))
    ensures e.status == Some(1) <==> Throws(c, file, listing)
    ensures e.status.Some? ==> e.status.value == 0 || e.status.value == 1
  {
    match c
    case ListRepos => Effect(file, Some(0))
    case AddRepo(name) =>
      if |lines| == 0 then Effect(file, None)
      else Effect(Some(ConfigStore.AddRepo(file, name, Text.Trim(lines[0]))), Some(0))
    case DeleteRepo(name) =>
      var d := ConfigStore.DeleteRepo(file, name);
      Effect(d.file, Some(if d.outcome == ReposFieldMissing then 1 else 0))
    case AddDirectory(root) =>
      (match RepoAddDirectory(file, FindGitRepos(root, listing))
       case Err(_) => Effect(file, Some(1))
       case Ok(s) => Effect(Some(s), Some(0)))
    case ResetConfig =>
      if file.None? then Effect(None, Some(1))
      else
        match Wizard(lines)
        case None => Effect(None, None)
        case Some(w) =>
          LoadSave(w);
          Effect(Some(Save(w)), Some(0))
  }
}
