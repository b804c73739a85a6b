# alfred: a Dafny model

alfred is a command-line assistant that runs one git command in several
registered repositories at once. Its configuration file holds the user's
name and title and a `repos` map from friendly names to directory paths.
One invocation does one of two things:

- A management command lists, adds or deletes repositories. It can also
  register every repository under a directory, or re-run the set-up wizard.
- Otherwise the first token is translated into a git command, such as
  `pull` becoming `git pull`. The next token chooses the repositories,
  either `all` or a list of friendly names. The command then runs in each
  chosen repository in turn.

The model covers the following:

- The dispatch of the first token. Its usage errors are values, not
  process exits.
- The translation of git keywords, and the splicing of tokens off the
  argument list.
- Repository selection.
- The `repos` map. It is an association list in insertion order, which is
  how a JavaScript object enumerates its keys. A map read from or written
  to the configuration file has unique keys (`UniqueRepos`), as the keys
  of a JSON object are.
- `addRepo` and `deleteRepo`.
- The recursive `.git` discovery over an inductive directory tree, and the
  bulk registration of what it finds.
- The load defaults of `initialize`.
- The set-up wizard, fed a list of console lines.
- The batch loop. An oracle gives each execution's exit code.

Module layout:

- `Text`: `trim` and `toLowerCase`.
- `Paths`: `path.join`, `path.basename` and `slice(0, -4)`.
- `Repos`: the map.
- `Tokens`: the argument list and the usage errors.
- `Dispatch`: `alfredCommand`.
- `Translate`: `commandToGitCommand`.
- `Select`: `reposStringToArray`.
- `Discovery`: `findGitRepos`.
- `ConfigStore`: loading, `addRepo`, `deleteRepo` and `repoAddDirectory`.
- `Setup`: `config`.
- `Batch`: the loop and `bash`.
- `Alfred`: `initialize`, `alfred` and the management effects.

Inputs that the source reads from the outside world are parameters:

- the configuration file, as `Option<StoredConfig>`;
- the console lines;
- the directory listing, as a tree of `Node`s;
- `process.cwd()`;
- the exit code of each child process.

## Model

| member | source | states |
|---|---|---|
| Text.TrimStart | alfred.ts:448 | the result is a suffix of the input, everything dropped is space, and it does not start with a space |
| Text.TrimEnd | alfred.ts:448 | the result is a prefix of the input, everything dropped is space, and it does not end with a space |
| Text.Trim | alfred.ts:446-449 | the trimmed answer has no space at either end, is no longer than the input, and is empty exactly when the input is all space |
| Text.TrimIsCore | alfred.ts:448 | independent characterisation of `trim`: for any input made of a space prefix, a core with non-space ends and a space suffix, trimming yields that core |
| Text.TrimIdempotent | alfred.ts:448 | trimming an already trimmed answer changes nothing |
| Text.ToLower | alfred.ts:531 | lower-casing keeps the length and maps every character on its own |
| Setup.IsAffirmative | alfred.ts:531 | the answer continues the loop exactly when it is one of the ten case spellings of `y` or `yes` |
| Setup.AffirmativeIsYesInAnyCase | alfred.ts:531 | the wizard asks for another repository exactly when the answer is one of the ten case spellings of `y` or `yes` |
| Paths.Join | alfred.ts:277 | the joined path ends with the entry name |
| Paths.JoinShape | alfred.ts:277 | the joined path is the directory, at most one separator and the name; a non-empty directory is always followed by a separator |
| Paths.DropLast | alfred.ts:281 | `slice(0, -k)` keeps a prefix that is k characters shorter; it keeps nothing when the string is shorter than k, and also when k is 0, because `-0` is the end index 0 |
| Paths.GitParent | alfred.ts:277-281 | stripping `.git` from the joined path leaves the directory with exactly one trailing separator |
| Paths.Basename | alfred.ts:303 | a basename never contains a separator |
| Paths.BasenameOfChild | alfred.ts:303 | the basename of a child directory, written with its trailing separator, is the child's entry name |
| Paths.BasenameWithSeparator | alfred.ts:303 | a trailing separator does not change the basename |
| Repos.Names | alfred.ts:433 | `Object.keys` lists one key per binding, in binding order |
| Repos.Lookup | alfred.ts:66 | `repos[k]` is defined exactly for the keys of the map, and the value it returns is the path stored under that key |
| Repos.Put | alfred.ts:211 | after `repos[k] = v`, k maps to v and every other key is unchanged; an existing key keeps its position, a new key is appended; keys stay unique |
| Repos.Remove | alfred.ts:244 | after `delete repos[k]`, k is gone and every other key is unchanged; deleting an absent key changes nothing; keys stay unique |
| Repos.RemoveExactlyOne | alfred.ts:244 | in a map with unique keys, deleting the i-th key removes exactly the i-th binding and keeps the rest in order |
| Tokens.SecondArgumentMissing | alfred.ts:415-417 | the second token counts as missing exactly when it is absent or empty; the length test adds nothing to `!args[1]` |
| Tokens.DeleteArguments | alfred.ts:419-421 | `splice(0, count)` leaves what follows the first `count` tokens, or nothing when there are fewer |
| Dispatch.AlfredCommand | alfred.ts:99-185 | an absent or empty first token is a usage error; each alias set gives its command; add, delete and directory need a non-empty second token, else their own usage error; "." resolves to the working directory; every other token falls through to git; each case is an if-and-only-if |
| Dispatch.DispatchSpelling | alfred.ts:108-183 | round trip: spelling any management command as tokens and classifying them gives the same command back, whatever selectors follow |
| Translate.ParseGitOp | alfred.ts:329-413 | only checkout, checkoutb, cb and commit consume a second token, and they fail exactly when it is missing; the rest of the list is what the operation did not consume; a non-keyword passes through as the command |
| Translate.ShellCommand | alfred.ts:332-410 | every recognised operation runs a command beginning with `git `; a pass-through runs the token itself |
| Translate.CommandToGitCommand | alfred.ts:329-413 | fails exactly when parsing fails; leaves `args[2..]` after an argument keyword and `args[1..]` otherwise; any non-keyword is passed through unchanged |
| Translate.PlainKeywordTable | alfred.ts:333-406 | pull, push, status, branch and branches each give their git command and drop only themselves |
| Translate.ArgumentKeywordTable | alfred.ts:345-393 | checkout, checkoutb, cb and commit with a non-empty token give their git command around that token and drop both tokens |
| Translate.MissingArgumentRejected | alfred.ts:346-387 | an argument keyword without its token is a usage error: a missing message for commit, a missing branch otherwise |
| Translate.ParseSpelling | alfred.ts:329-413 | round trip: every expressible operation, spelled as tokens and followed by any selectors, parses back to itself with those selectors left over |
| Select.ReposStringToArray | alfred.ts:423-437 | no selector is a usage error; `all` selects exactly the keys of the map in order; any other tokens are taken as given |
| Select.AllIgnoresTail | alfred.ts:432-433 | whatever follows `all` is ignored |
| Select.AllSelectsEachKeyOnce | alfred.ts:433 | with unique keys, `all` selects every repository exactly once |
| Discovery.FindGitRepos | alfred.ts:273-290 | every path found under a non-empty directory is non-empty |
| Discovery.FindGitReposAppend | alfred.ts:276-287 | the walk keeps the listing order: two listings scanned one after the other find the concatenation of their finds |
| Discovery.RouteFound | alfred.ts:273-288 | every directory that holds a `.git` and is reachable without entering a `.git` is found |
| Discovery.FoundHasRoute | alfred.ts:273-288 | everything found is such a directory |
| Discovery.FindGitReposIsComplete | alfred.ts:273-288 | if and only if: a path is found exactly when it is a reachable repository root, written with a trailing separator |
| Discovery.RepoKey | alfred.ts:302-303 | a found root is keyed by the name of the directory holding the `.git`, or by the scanned directory's basename when the `.git` is directly inside it |
| Discovery.ScanExample | alfred.ts:273-290 | two repositories, one nested deeper and one with a `.git` inside its `.git`, are both found once, in listing order, with trailing separators |
| ConfigStore.Load | alfred.ts:44-52 | a missing `repos` loads as empty; a missing or empty name or title falls back to Wayne or sir; a non-empty value is kept |
| ConfigStore.Save | alfred.ts:546-549 | the saved file has a name, a title and a map; loading it gives back the map, and the name and title with an empty one replaced by its default |
| ConfigStore.LoadSave | alfred.ts:547-549 | what the wizard saves loads back unchanged exactly when its name and title are non-empty |
| ConfigStore.AddRepo | alfred.ts:204-213 | the file gets a `repos` map if it lacked one; the name maps to the path; every other key, the name and the title are untouched |
| ConfigStore.AddThenLoad | alfred.ts:210-211 | after adding, loading the file yields the new path under that name |
| ConfigStore.DeleteRepo | alfred.ts:221-264 | no file writes nothing; `all` empties the map, and that outcome occurs exactly when a file exists and the name is `all`; a known key is removed with every other key kept; the not-in-list outcome occurs exactly when the file has a map without the name, and writes nothing; a file without `repos` throws and writes nothing |
| ConfigStore.DeleteKeepsOrder | alfred.ts:243-244 | deleting a key of a map with unique keys removes that one binding and keeps the order of the rest |
| ConfigStore.MergeOneKeeps | alfred.ts:303-308 | one registration step keeps every key with a non-empty path and the order of existing keys, and keeps keys unique |
| ConfigStore.MergeDiscovered | alfred.ts:302-309 | the bulk registration never overwrites a non-empty path, only appends keys, and keeps keys unique |
| ConfigStore.MergeDiscoveredValue | alfred.ts:302-309 | each key ends up with its old non-empty path, or else the first found path with that basename, or else what it held before |
| ConfigStore.MergeDiscoveredAsWritten | alfred.ts:305 | as written, a key named after an inherited `Object.prototype` property is never registered |
| ConfigStore.InheritedNameSkipped | alfred.ts:305-306 | a repository in a directory named e.g. `constructor` is dropped by the code as written and registered by the intended test |
| ConfigStore.RepoAddDirectory | alfred.ts:292-322 | a file without `repos` throws once a repository is found; otherwise the name and title are kept, every key with a non-empty path keeps it, and when something is found the map becomes the old map merged with the finds; finding nothing leaves an existing file as it was; without a file, the written object holds only the merged `repos`, with no name or title |
| Setup.TrimOr | alfred.ts:523-527 | an answer is trimmed, and a blank answer gives the default |
| Setup.CollectRepos | alfred.ts:528-541 | the loop always asks at least one round, so it completes only on at least three lines; what each round reads is stated by Setup.CollectReadsRounds |
| Setup.Wizard | alfred.ts:510-552 | a completed wizard has read at least five lines and stored at least one repository; its name and title are the trimmed answers or the defaults |
| Setup.PutAllKeepsLast | alfred.ts:539 | a friendly name entered twice keeps the path given last |
| Setup.CollectReadsRounds | alfred.ts:529-541 | the loop reads the typed pairs up to the first answer that is not `y` or `yes`, and nothing after it |
| Setup.WizardReadsScript | alfred.ts:522-541 | the wizard reads back exactly the name, the title and the repositories the user typed |
| Setup.WizardNeedsFinalAnswer | alfred.ts:531-541 | while every answer is `y` or `yes` the wizard keeps asking, so input that ends there, or partway into the next round, saves nothing |
| Setup.CollectNeedsFinalAnswer | alfred.ts:531-541 | the repository rounds alone: affirmative answers followed by fewer than three lines end the input before any round is declined, whatever was collected so far |
| Setup.TrimOrKeeps | alfred.ts:523 | a word without surrounding space is kept as typed |
| Setup.WizardExample | alfred.ts:522-541 | the answers Ann, ma'am, work, /home/ann/work and no give that name, title and one repository |
| Batch.Executed | alfred.ts:63-69 | executions follow the selection order, each numbered by its position and run in its repository's directory, up to and including the first that fails |
| Batch.StopsAtFirstFailureUnique | alfred.ts:63-69 | only one sequence of executions stops at the first failure |
| Batch.RunBatch | alfred.ts:63-69 | the loop performs exactly those executions, reports a failure exactly when the last one failed, and runs every selected repository when none failed |
| Batch.RepeatedSelectionMayFailSecond | alfred.ts:63-94 | a repository selected twice is run twice, and the second run may fail where the first succeeded |
| Batch.FailureEndsBatch | alfred.ts:85-94 | a failure in the k-th repository ends the batch after k+1 executions, even when later ones would succeed |
| Alfred.InitializeAsWritten | alfred.ts:39-53 | as written: an existing file is loaded; on a first run start-up completes exactly when the wizard does and the file holds exactly the wizard's answers, but the fields keep Wayne, sir and no repositories |
| Alfred.Initialize | alfred.ts:39-53 | intended: the fields always equal the loaded file; on a first run they are the wizard's answers, and start-up completes exactly when the wizard does |
| Alfred.GitPipelineOutcome | alfred.ts:59-69 | a usage error arises exactly when translation or selection fails; otherwise the translated command runs over the selection, and it failed exactly when its last execution did |
| Alfred.Invoke | alfred.ts:56-70 | a dispatch error is reported as is; a git command's outcome is exactly the pipeline's outcome; a management keyword runs no git command and has exactly `Manage`'s effect; in a batch every execution runs the same command |
| Alfred.ExitStatus | alfred.ts:85-181 | the process exits 1 exactly on a usage error, a failed execution, or a management command whose effect ends with status 1; a management command that waits for input exits 0 |
| Alfred.ExitStatusOfInvoke | alfred.ts:56-181 | the exit status is 0 or 1, and it is 1 exactly when dispatch rejects the arguments, translation or selection fails, an execution fails, or the management command throws |
| Alfred.FallsThrough | alfred.ts:182-183 | a token outside the management keywords goes to the git pipeline |
| Alfred.PipelineSteps | alfred.ts:56-70 | an invocation's outcome is the batch over the translated command and the selected repositories |
| Alfred.CommitAllExample | alfred.ts:56-70 | `commit "fix bug" all` runs `git commit -m "fix bug"` in a and then in b |
| Alfred.NoSelectorRunsNothing | alfred.ts:424-431 | a command without a repository selector is rejected with status 1 and runs nothing |
| Alfred.PullAll | alfred.ts:333-338 | `pull all` runs `git pull` over every registered key |
| Alfred.FirstRunStartups | alfred.ts:39-53 | on a first run the code as written starts with the defaults, while the intended start-up has the wizard's answers |
| Alfred.FirstRunForgetsWizard | alfred.ts:39-42 | on a first run that registers `work`, `pull all` runs nowhere as written, and runs in `work` as intended |
| Alfred.Manage | alfred.ts:108-181 | listing exits 0 and changes nothing; add writes exactly `addRepo`'s result for the trimmed answer, so the name, the title and the other keys are kept; delete has `deleteRepo`'s effect, never waits for input, and exits 1 when it throws and 0 otherwise; the bulk add never overwrites a non-empty path; reset without a file exits 1, and otherwise saves exactly the wizard's answers once it completes; the directory add exits 1 exactly when registration throws and otherwise writes the merged file; a management command exits 1 exactly when it throws |

## Behaviour worth knowing

The model follows the code in each of these cases.

- **The batch stops at the first failure.** The loop awaits each
  execution. A failing one rejects a promise that nothing catches, so the
  remaining repositories never run and the process exits with status 1
  (Node 15 and later).
- **Found paths keep a trailing separator.** A repository's path is the
  `.git` path with its last four characters cut off, so it ends in `/`.
  The basename, and so the registered key, is the same either way.
- **`deleteRepo` can throw.** On a file without a `repos` field, any name
  other than `all` reaches `Object.keys(undefined)`, which throws. Nothing
  is written and the exit status is 1. The name `all` takes an earlier
  branch that writes an empty map and does not throw.
- **`reset-config` can throw.** With no configuration file, `unlinkSync`
  throws and the exit status is 1.

## Findings

| source | as written | input that shows it | evidently intended | confidence | as-written member | corrected member |
|---|---|---|---|---|---|---|
| alfred.ts:39-53 | After the first-run wizard saves its answers, `initialize` never reads them, so the fields keep Wayne, sir and an empty map. | A first run answering Ann, ma'am, `work` at /home/ann/work and `no`, invoked as `pull all`: git runs in no repository. | The fields hold what the wizard saved, so `pull all` runs in `work`. | not executed | Alfred.InitializeAsWritten | Alfred.Initialize |
| alfred.ts:305 | `!configJson.repos[repo]` also reads properties inherited from `Object.prototype`. A found repository whose directory is named `constructor`, `toString`, `valueOf` and so on is treated as already registered and skipped. | `repo-add-directory` over a directory holding `constructor/.git`: nothing is added. | An own-property test, so the repository is registered under `constructor`. | not executed | ConfigStore.MergeDiscoveredAsWritten | ConfigStore.MergeDiscovered |

`Alfred.FirstRunForgetsWizard` and `ConfigStore.InheritedNameSkipped` show
the two discrepancies on those inputs. The rest of the model uses the
corrected members.

## Left out

- File I/O: the configuration file is a value, and `None` means the file
  does not exist. `existsSync`, reading, writing and the home directory
  are not modelled.
- `restoreSettings` and the version-directory check at the start of
  `initialize` (alfred.ts:23-37, 453-508): they copy a file between
  installed versions, which is filesystem work only.
- JSON: the text format, malformed JSON (which throws), extra fields, and
  fields whose values are not strings or objects.
- Console output: messages, colours and the listing printed by
  `listReposAndLocations`. Listing is modelled as leaving the file
  unchanged with status 0.
- readline: answers are a list of lines. Running out of lines before the
  wizard or `addRepo` finishes is `None`: the prompt never returns and
  nothing is written. Node then exits with status 0.
- Child processes: `exec` is replaced by an exit-code oracle. Streamed
  output and the shell's parsing of the command string are left out; for
  example, a quote inside a commit message is not handled.
- Batch: spawn failures. When a registered path no longer exists, `exec`
  reports an `error` event and may never report `exit`. `bash` listens only
  for `exit`, so its promise stays pending, the remaining repositories never
  run and Node exits with status 0. The oracle gives every execution an
  exit code, so this silent stop is not modelled.
- `readdirSync` errors: scanning a directory that does not exist throws.
  The listing is given as a tree instead.
- Repos.Names: it does not model that `Object.keys` lists integer-like
  keys first, in ascending order. Every other key keeps insertion order,
  which is what the association list gives.
- Repos.Put: assigning to the key `__proto__` changes the object's
  prototype instead of adding a key. The model treats it as an ordinary
  key.
- Batch.ExecutionFor: a selector naming an inherited property such as
  `constructor` reads a function as the working directory. The model
  gives it no directory, as for any unknown name.
- Paths.Join: assumes the directory is already normalised. `.` and `..`
  segments and repeated separators are not collapsed.
- Text.ToLower: maps ASCII letters only. This is exact for the comparison
  with `yes` and `y`, since no other character lower-cases to `y`, `e` or
  `s`.
- Concurrency: `main` does not await `alfred`, and `process.exit` cuts
  off pending work. The model treats each invocation as one sequential
  run.
