/** The argument list of one invocation and the usage errors raised while
    consuming it. The source keeps the list in a mutable field and splices
    tokens off its front; here every stage takes the list as a value and
    returns what remains. */
module Tokens {

  /** The usage errors that make the assistant print a correction and exit
      with status 1 before any repository is touched. */
  datatype UsageError =
    | MissingCommand        // no first token
    | MissingRepoName       // add-repo without a name
    | MissingDeleteTarget   // delete-repo without a name
    | MissingDirectory      // repo-add-directory without a path
    | MissingBranch         // checkout / checkoutb without a branch
    | MissingCommitMessage  // commit without a message
    | MissingRepository     // no repository selector after the command

  /** `!args[i]`: the token is absent (`undefined`) or the empty string. */
  predicate Absent(args: seq<string>, i: nat) {
    i >= |args| || args[i] == ""
  }

  /** `secondArgumentMissing`: its length test adds nothing to `!args[1]`,
      which is already true for a list of fewer than two tokens. */
  predicate SecondArgumentMissing(args: seq<string>): (missing: bool)
    ensures missing <==> Absent(args, 1)
  {
    |args| < 2 || Absent(args, 1)
  }

  /** `args.splice(0, count)`: what is left after dropping the first
      `count` tokens, or nothing when there are fewer. */
  function DeleteArguments(args: seq<string>, count: nat): (rest: seq<string>)
    ensures count <= |args| ==> args == args[..count] + rest
    ensures count > |args| ==> rest == []
  {
    if count <= |args| then args[count..] else []
  }
}
