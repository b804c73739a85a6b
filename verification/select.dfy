/** `reposStringToArray`: the tokens left after the command name the
    repositories to run in. */
module Select {
  import opened Wrappers
  import opened Tokens
  import opened Repos

  const AllSelector := "all"

  /** The selected friendly names. A leading `all` selects every key of the
      map in enumeration order and ignores what follows; otherwise the tokens
      are taken as they are, without checking that they are keys. */
  function ReposStringToArray(rest: seq<string>, repos: RepoList): (r: Result<seq<string>, UsageError>)
    ensures r.Err? <==> Absent(rest, 0)
    ensures r.Err? ==> r.error == MissingRepository
    ensures r.Ok? && rest[0] == AllSelector ==> r.value == Names(repos)
    ensures r.Ok? && rest[0] == AllSelector ==> forall k :: k in r.value <==> Lookup(repos, k).Some?
    ensures r.Ok? && rest[0] != AllSelector ==> r.value == rest
  {
    if Absent(rest, 0) then Err(MissingRepository)
    else if rest[0] == AllSelector then Ok(Names(repos))
    else Ok(rest)
  }

  /** Whatever follows `all` is ignored. */
  lemma AllIgnoresTail(tail: seq<string>, repos: RepoList)
    ensures ReposStringToArray([AllSelector] + tail, repos) == ReposStringToArray([AllSelector], repos)
  {
  }

  /** With `all` and a well-formed map every key is selected exactly once. */
  lemma AllSelectsEachKeyOnce(tail: seq<string>, repos: RepoList)
    requires UniqueNames(repos)
    ensures ReposStringToArray([AllSelector] + tail, repos).Ok?
    ensures Distinct(ReposStringToArray([AllSelector] + tail, repos).value)
    ensures |ReposStringToArray([AllSelector] + tail, repos).value| == |repos|
  {
  }
}
