/** `alfredCommand`: classifies the first token as a management command, a
    usage error, or a fall-through to the git pipeline. */
module Dispatch {
  import opened Wrappers
  import opened Tokens

  datatype Command =
    | ListRepos
    | AddRepo(name: string)
    | DeleteRepo(name: string)
    | AddDirectory(root: string)
    | ResetConfig
    | GitPipeline

  const ListAliases: set<string> := {"list-repo", "list-repos", "listrepo", "listrepos", "lr"}
  const AddAliases: set<string> := {"add-repo", "addrepo", "ar"}
  const DeleteAliases: set<string> := {"delete-repo", "deleterepo", "deletrepo", "dr"}
  const DirectoryAliases: set<string> := {"repo-add-directory", "rad"}
  const ResetAliases: set<string> := {"reset-config", "rc"}

  /** Management commands that need a second token. */
  const NamedAliases: set<string> := AddAliases + DeleteAliases + DirectoryAliases

  const ManagementKeywords: set<string> := ListAliases + NamedAliases + ResetAliases

  /** The error a management keyword reports when its second token is missing. */
  function MissingSecondError(keyword: string): UsageError {
    if keyword in AddAliases then MissingRepoName
    else if keyword in DeleteAliases then MissingDeleteTarget
    else MissingDirectory
  }

  /** The first token's command; `cwd` stands for `process.cwd()`, which a
      directory argument of "." resolves to. */
  function AlfredCommand(args: seq<string>, cwd: string): (r: Result<Command, UsageError>)
    ensures Absent(args, 0) ==> r == Err(MissingCommand)
    ensures r == Ok(GitPipeline) <==> !Absent(args, 0) && args[0] !in ManagementKeywords
    ensures r.Err? <==> Absent(args, 0) || (args[0] in NamedAliases && SecondArgumentMissing(args))
    ensures r.Err? && !Absent(args, 0) ==> r.error == MissingSecondError(args[0])
    ensures r == Ok(ListRepos) <==> !Absent(args, 0) && args[0] in ListAliases
    ensures r == Ok(ResetConfig) <==> !Absent(args, 0) && args[0] in ResetAliases
    ensures r.Ok? && r.value.AddRepo? <==> !Absent(args, 0) && args[0] in AddAliases && !SecondArgumentMissing(args)
    ensures r.Ok? && r.value.DeleteRepo? <==> !Absent(args, 0) && args[0] in DeleteAliases && !SecondArgumentMissing(args)
    ensures r.Ok? && r.value.AddDirectory? <==> !Absent(args, 0) && args[0] in DirectoryAliases && !SecondArgumentMissing(args)
    ensures r.Ok? && (r.value.AddRepo? || r.value.DeleteRepo?) ==> r.value.name == args[1] != ""
    ensures r.Ok? && r.value.AddDirectory? ==> r.value.root == (if args[1] == "." then cwd else args[1])
  {
    if Absent(args, 0) then Err(MissingCommand)
    else
      match args[0]
      case "list-repo" | "list-repos" | "listrepo" | "listrepos" | "lr" =>
        Ok(ListRepos)
      case "add-repo" | "addrepo" | "ar" =>
        if SecondArgumentMissing(args) then Err(MissingRepoName) else Ok(AddRepo(args[1]))
      case "delete-repo" | "deleterepo" | "deletrepo" | "dr" =>
        if SecondArgumentMissing(args) then Err(MissingDeleteTarget) else Ok(DeleteRepo(args[1]))
      case "repo-add-directory" | "rad" =>
        if SecondArgumentMissing(args) then Err(MissingDirectory)
        else Ok(AddDirectory(if args[1] == "." then cwd else args[1]))
      case "reset-config" | "rc" =>
        Ok(ResetConfig)
      case _ =>
        Ok(GitPipeline)
  }

  /** The canonical spelling of a management command as tokens. */
  function Spell(c: Command): seq<string>
    requires !c.GitPipeline?
  {
    match c
    case ListRepos => ["list-repos"]
    case AddRepo(name) => ["add-repo", name]
    case DeleteRepo(name) => ["delete-repo", name]
    case AddDirectory(root) => ["repo-add-directory", root]
    case ResetConfig => ["reset-config"]
  }

  /** Spelling a management command and classifying the tokens gives the
      command back, whatever selectors follow; "." is the one directory
      that is resolved rather than kept. */
  lemma DispatchSpelling(c: Command, rest: seq<string>, cwd: string)
    requires !c.GitPipeline?
    requires (c.AddRepo? || c.DeleteRepo?) ==> c.name != ""
    requires c.AddDirectory? ==> c.root != ""
    ensures c.AddDirectory? && c.root == "." ==> AlfredCommand(Spell(c) + rest, cwd) == Ok(AddDirectory(cwd))
    ensures !(c.AddDirectory? && c.root == ".") ==> AlfredCommand(Spell(c) + rest, cwd) == Ok(c)
  {
  }
}
