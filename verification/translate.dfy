/** `commandToGitCommand` with `deleteArguments`: the first token (and for
    three keywords the second) becomes one shell command string; the rest
    of the list is left for repository selection. */
module Translate {
  import opened Wrappers
  import opened Tokens

  /** The recognised git operations, and the raw pass-through of any other
      token as a shell command. */
  datatype GitOp =
    | Pull
    | Push
    | Checkout(branch: string)
    | CheckoutNew(branch: string)
    | Commit(message: string)
    | Status
    | CurrentBranch
    | Passthrough(command: string)

  /** An operation together with the tokens it did not consume. */
  datatype Parsed = Parsed(op: GitOp, rest: seq<string>)

  /** A shell command string with the tokens left over. */
  datatype Translated = Translated(command: string, rest: seq<string>)

  const GitKeywords: set<string> :=
    {"pull", "push", "checkout", "checkoutb", "cb", "commit", "status", "branches", "branch"}

  /** The keywords that consume a second token. */
  const ArgumentKeywords: set<string> := {"checkout", "checkoutb", "cb", "commit"}

  /** How many tokens an operation takes from the front of the list. */
  function Arity(op: GitOp): nat {
    if op.Checkout? || op.CheckoutNew? || op.Commit? then 2 else 1
  }

  /** The error reported for a keyword whose second token is missing. */
  function MissingArgumentError(keyword: string): UsageError {
    if keyword == "commit" then MissingCommitMessage else MissingBranch
  }

  /** Classifies the first token; the caller has already rejected an empty
      list, so the first token exists. */
  function ParseGitOp(args: seq<string>): (r: Result<Parsed, UsageError>)
    requires |args| > 0
    ensures r.Err? <==> args[0] in ArgumentKeywords && SecondArgumentMissing(args)
    ensures r.Err? ==> r.error == MissingArgumentError(args[0])
    ensures r.Ok? ==> Arity(r.value.op) <= |args| && r.value.rest == args[Arity(r.value.op)..]
    ensures r.Ok? ==> (Arity(r.value.op) == 2 <==> args[0] in ArgumentKeywords)
    ensures r.Ok? && Arity(r.value.op) == 2 ==> args[1] != ""
    ensures args[0] !in GitKeywords ==> r == Ok(Parsed(Passthrough(args[0]), args[1..]))
    ensures r.Ok? && r.value.op.Passthrough? ==> args[0] !in GitKeywords
  {
    match args[0]
    case "pull" => Ok(Parsed(Pull, DeleteArguments(args, 1)))
    case "push" => Ok(Parsed(Push, DeleteArguments(args, 1)))
    case "checkout" =>
      if SecondArgumentMissing(args) then Err(MissingBranch)
      else Ok(Parsed(Checkout(args[1]), DeleteArguments(args, 2)))
    case "checkoutb" | "cb" =>
      if SecondArgumentMissing(args) then Err(MissingBranch)
      else Ok(Parsed(CheckoutNew(args[1]), DeleteArguments(args, 2)))
    case "commit" =>
      if SecondArgumentMissing(args) then Err(MissingCommitMessage)
      else Ok(Parsed(Commit(args[1]), DeleteArguments(args, 2)))
    case "status" => Ok(Parsed(Status, DeleteArguments(args, 1)))
    case "branches" | "branch" => Ok(Parsed(CurrentBranch, DeleteArguments(args, 1)))
    case _ => Ok(Parsed(Passthrough(args[0]), DeleteArguments(args, 1)))
  }

  /** The shell command an operation runs in each repository. */
  function ShellCommand(op: GitOp): (c: string)
    ensures !op.Passthrough? ==> |c| > 4 && c[..4] == "git "
    ensures op.Passthrough? ==> c == op.command
  {
    match op
    case Pull => "git pull"
    case Push => "git push"
    case Checkout(b) => "git checkout " + b
    case CheckoutNew(b) => "git checkout -b " + b
    case Commit(m) => "git commit -m \"" + m + "\""
    case Status => "git status"
    case CurrentBranch => "git rev-parse --abbrev-ref HEAD"
    case Passthrough(c) => c
  }

  function CommandToGitCommand(args: seq<string>): (r: Result<Translated, UsageError>)
    requires |args| > 0
    ensures r.Err? <==> ParseGitOp(args).Err?
    ensures r.Ok? && args[0] in ArgumentKeywords ==> |args| >= 2 && r.value.rest == args[2..]
    ensures r.Ok? && args[0] !in ArgumentKeywords ==> r.value.rest == args[1..]
    ensures args[0] !in GitKeywords ==> r == Ok(Translated(args[0], args[1..]))
  {
    match ParseGitOp(args)
    case Err(e) => Err(e)
    case Ok(Parsed(op, rest)) => Ok(Translated(ShellCommand(op), rest))
  }

  /** The translation table for the keywords that take no argument: each
      yields exactly its git command and drops only itself. */
  lemma PlainKeywordTable(rest: seq<string>)
    ensures CommandToGitCommand(["pull"] + rest) == Ok(Translated("git pull", rest))
    ensures CommandToGitCommand(["push"] + rest) == Ok(Translated("git push", rest))
    ensures CommandToGitCommand(["status"] + rest) == Ok(Translated("git status", rest))
    ensures CommandToGitCommand(["branch"] + rest) == Ok(Translated("git rev-parse --abbrev-ref HEAD", rest))
    ensures CommandToGitCommand(["branches"] + rest) == Ok(Translated("git rev-parse --abbrev-ref HEAD", rest))
  {
    assert (["pull"] + rest)[1..] == rest;
    assert (["push"] + rest)[1..] == rest;
    assert (["status"] + rest)[1..] == rest;
    assert (["branch"] + rest)[1..] == rest;
    assert (["branches"] + rest)[1..] == rest;
  }

  /** The translation table for the keywords that take a branch or a
      message: each yields its git command around that token and drops
      both tokens. */
  lemma ArgumentKeywordTable(x: string, rest: seq<string>)
    requires x != ""
    ensures CommandToGitCommand(["checkout", x] + rest) == Ok(Translated("git checkout " + x, rest))
    ensures CommandToGitCommand(["checkoutb", x] + rest) == Ok(Translated("git checkout -b " + x, rest))
    ensures CommandToGitCommand(["cb", x] + rest) == Ok(Translated("git checkout -b " + x, rest))
    ensures CommandToGitCommand(["commit", x] + rest) == Ok(Translated("git commit -m \"" + x + "\"", rest))
  {
    assert (["checkout", x] + rest)[2..] == rest;
    assert (["checkoutb", x] + rest)[2..] == rest;
    assert (["cb", x] + rest)[2..] == rest;
    assert (["commit", x] + rest)[2..] == rest;
  }

  /** A keyword that needs a second token gives a usage error, and no
      command, whenever that token is absent or empty. */
  lemma MissingArgumentRejected(args: seq<string>)
    requires |args| > 0 && args[0] in ArgumentKeywords
    requires SecondArgumentMissing(args)
    ensures CommandToGitCommand(args) == Err(if args[0] == "commit" then MissingCommitMessage else MissingBranch)
  {
  }

  /** The canonical tokens of an operation. */
  function Spell(op: GitOp): seq<string> {
    match op
    case Pull => ["pull"]
    case Push => ["push"]
    case Checkout(b) => ["checkout", b]
    case CheckoutNew(b) => ["checkoutb", b]
    case Commit(m) => ["commit", m]
    case Status => ["status"]
    case CurrentBranch => ["branches"]
    case Passthrough(c) => [c]
  }

  /** The operations a user can express: a branch or message is non-empty,
      and a pass-through command is not itself a keyword. */
  predicate Expressible(op: GitOp) {
    match op
    case Checkout(b) => b != ""
    case CheckoutNew(b) => b != ""
    case Commit(m) => m != ""
    case Passthrough(c) => c !in GitKeywords
    case _ => true
  }

  /** Parsing is the inverse of spelling: every expressible operation,
      followed by any selectors, is read back exactly, with the selectors
      as the remaining tokens. */
  lemma {:induction false} ParseSpelling(op: GitOp, rest: seq<string>)
    requires Expressible(op)
    ensures ParseGitOp(Spell(op) + rest) == Ok(Parsed(op, rest))
  {
    var args := Spell(op) + rest;
    assert args[..|Spell(op)|] == Spell(op);
    assert args[|Spell(op)|..] == rest;
    assert args[0] == Spell(op)[0];
    if Arity(op) == 2 {
      assert args[1] == Spell(op)[1];
    }
  }
}
