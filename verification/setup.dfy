/** `config`, the first-run and reset wizard. Console prompting becomes a
    sequence of input lines, one per answer: name, title, then rounds of
    friendly name, path and "add more?". When the lines run out before the
    wizard is done the prompt never returns and nothing is written, which is
    `None` here. */
module Setup {
  import opened Wrappers
  import opened Text
  import opened Repos
  import opened ConfigStore

  /** `answer.toLowerCase() === 'yes' || answer.toLowerCase() === 'y'`:
      the wizard goes on for exactly the ten case variants of `y` and `yes`;
      surrounding spaces, `yeah` or `ok` end it. */
  predicate IsAffirmative(answer: string): (b: bool)
    ensures b <==> answer in AffirmativeSpellings
  {
    AffirmativeIsYesInAnyCase(answer);
    ToLower(answer) == "yes" || ToLower(answer) == "y"
  }

  const AffirmativeSpellings: set<string> :=
    {"y", "Y", "yes", "yeS", "yEs", "yES", "Yes", "YeS", "YEs", "YES"}

  /** The strings that lower-case to `yes` or `y`. */
  lemma AffirmativeIsYesInAnyCase(a: string)
    ensures ToLower(a) == "yes" || ToLower(a) == "y" <==> a in AffirmativeSpellings
  {
    if ToLower(a) == "yes" || ToLower(a) == "y" {
      if |a| == 1 {
        assert LowerChar(a[0]) == 'y';
        assert a[0] == 'y' || a[0] == 'Y';
        assert a == [a[0]];
      } else {
        assert |a| == 3;
        assert LowerChar(a[0]) == 'y' && LowerChar(a[1]) == 'e' && LowerChar(a[2]) == 's';
        assert a == [a[0], a[1], a[2]];
      }
    }
  }

  /** `answer.trim() || fallback`. */
  function TrimOr(answer: string, fallback: string): (r: string)
    requires fallback != "" && Trimmed(fallback)
    ensures r != "" && Trimmed(r)
    ensures AllSpace(answer) ==> r == fallback
    ensures !AllSpace(answer) ==> r == Trim(answer)
  {
    var t := Trim(answer);
    if t == "" then fallback else t
  }

  /** The repository loop: at least one round is always asked, because the
      answer it starts from is `yes`. */
  function CollectRepos(lines: seq<string>, acc: UniqueRepos): (r: Option<UniqueRepos>)
    ensures r.Some? ==> |r.value| >= 1 && |r.value| >= |acc|
    ensures r.Some? ==> |lines| >= 3
    decreases |lines|
  {
    if |lines| < 3 then None
    else
      var acc' := Put(acc, lines[0], lines[1]);
      if IsAffirmative(lines[2]) then CollectRepos(lines[3..], acc') else Some(acc')
  }

  function Wizard(lines: seq<string>): (c: Option<Config>)
    ensures c.Some? ==>
      && |lines| >= 5
      && |c.value.repos| >= 1
      && c.value.name == TrimOr(lines[0], DefaultName)
      && c.value.title == TrimOr(lines[1], DefaultTitle)
  {
    if |lines| < 2 then None
    else
      var repos := CollectRepos(lines[2..], []);
      if repos.None? then None
      else Some(Config(TrimOr(lines[0], DefaultName), TrimOr(lines[1], DefaultTitle), repos.value))
  }

  /** The input a user types for the given pairs and "add more?" answers. */
  function Rounds(pairs: seq<Binding>, answers: seq<string>): seq<string>
    requires |pairs| == |answers|
  {
    if |pairs| == 0 then []
    else [pairs[0].name, pairs[0].path, answers[0]] + Rounds(pairs[1..], answers[1..])
  }

  /** Assigning the pairs one after another into `acc`. */
  function PutAll(acc: RepoList, pairs: seq<Binding>): (r: RepoList)
    ensures UniqueNames(acc) ==> UniqueNames(r)
    decreases |pairs|
  {
    if |pairs| == 0 then acc else PutAll(Put(acc, pairs[0].name, pairs[0].path), pairs[1..])
  }

  /** The path of the last pair named `k`. */
  function LastWithName(pairs: seq<Binding>, k: string): (p: Option<string>)
    ensures p.Some? ==> Binding(k, p.value) in pairs
    ensures p.None? ==> forall i :: 0 <= i < |pairs| ==> pairs[i].name != k
  {
    if |pairs| == 0 then None
    else if pairs[|pairs| - 1].name == k then Some(pairs[|pairs| - 1].path)
    else LastWithName(pairs[..|pairs| - 1], k)
  }

  /** Assigning the pairs is assigning all but the last, then the last. */
  lemma {:induction false} PutAllSnoc(acc: RepoList, pairs: seq<Binding>)
    requires |pairs| > 0
    ensures PutAll(acc, pairs) ==
      Put(PutAll(acc, pairs[..|pairs| - 1]), pairs[|pairs| - 1].name, pairs[|pairs| - 1].path)
    decreases |pairs|
  {
    var acc' := Put(acc, pairs[0].name, pairs[0].path);
    var last := pairs[|pairs| - 1];
    var init := pairs[..|pairs| - 1];
    if |pairs| == 1 {
      assert init == [] && pairs[1..] == [];
    } else {
      var rest := pairs[1..];
      PutAllSnoc(acc', rest);
      TailParts(pairs);
      calc {
        PutAll(acc, pairs);
        PutAll(acc', rest);
        Put(PutAll(acc', init[1..]), last.name, last.path);
        { assert init[0] == pairs[0]; }
        Put(PutAll(acc, init), last.name, last.path);
      }
    }
  }

  lemma TailParts<T>(s: seq<T>)
    requires |s| >= 2
    ensures s[1..][..|s| - 2] == s[..|s| - 1][1..]
    ensures s[1..][|s| - 2] == s[|s| - 1]
  {
  }

  /** A repeated friendly name keeps the path given last. */
  lemma {:induction false} PutAllKeepsLast(acc: RepoList, pairs: seq<Binding>, k: string)
    ensures Lookup(PutAll(acc, pairs), k) ==
      if LastWithName(pairs, k).Some? then LastWithName(pairs, k) else Lookup(acc, k)
    decreases |pairs|
  {
    if |pairs| > 0 {
      var init := pairs[..|pairs| - 1];
      PutAllSnoc(acc, pairs);
      PutAllKeepsLast(acc, init, k);
      LookupPut(PutAll(acc, init), pairs[|pairs| - 1], k);
    }
  }

  lemma LookupPut(acc: RepoList, b: Binding, k: string)
    ensures Lookup(Put(acc, b.name, b.path), k) == if b.name == k then Some(b.path) else Lookup(acc, k)
  {
  }

  lemma {:induction false} CollectReadsRounds(acc: UniqueRepos, pairs: seq<Binding>, answers: seq<string>, extra: seq<string>)
    requires |pairs| == |answers| >= 1
    requires forall i :: 0 <= i < |answers| - 1 ==> IsAffirmative(answers[i])
    requires !IsAffirmative(answers[|answers| - 1])
    ensures CollectRepos(Rounds(pairs, answers) + extra, acc) == Some(PutAll(acc, pairs))
    decreases |pairs|
  {
    var lines := Rounds(pairs, answers) + extra;
    var tail := Rounds(pairs[1..], answers[1..]) + extra;
    assert lines == [pairs[0].name, pairs[0].path, answers[0]] + tail;
    assert lines[3..] == tail;
    if |pairs| > 1 {
      assert IsAffirmative(answers[0]);
      CollectReadsRounds(Put(acc, pairs[0].name, pairs[0].path), pairs[1..], answers[1..], extra);
    } else {
      assert PutAll(Put(acc, pairs[0].name, pairs[0].path), pairs[1..]) == Put(acc, pairs[0].name, pairs[0].path);
    }
  }

  /** The wizard reads back what the user typed: every pair up to the first
      answer that is not `y`/`yes`, with later pairs overriding earlier ones
      of the same name, and nothing after that answer. */
  lemma WizardReadsScript(name: string, title: string, pairs: seq<Binding>, answers: seq<string>, extra: seq<string>)
    requires |pairs| == |answers| >= 1
    requires forall i :: 0 <= i < |answers| - 1 ==> IsAffirmative(answers[i])
    requires !IsAffirmative(answers[|answers| - 1])
    ensures Wizard([name, title] + Rounds(pairs, answers) + extra)
         == Some(Config(TrimOr(name, DefaultName), TrimOr(title, DefaultTitle), PutAll([], pairs)))
  {
    var lines := [name, title] + Rounds(pairs, answers) + extra;
    var body := Rounds(pairs, answers) + extra;
    assert lines == [name, title] + body;
    assert lines[0] == name && lines[1] == title && lines[2..] == body;
    CollectReadsRounds([], pairs, answers, extra);
    WizardUnfold(lines, PutAll([], pairs));
  }

  lemma WizardUnfold(lines: seq<string>, repos: UniqueRepos)
    requires |lines| >= 2 && CollectRepos(lines[2..], []) == Some(repos)
    ensures Wizard(lines) == Some(Config(TrimOr(lines[0], DefaultName), TrimOr(lines[1], DefaultTitle), repos))
  {
  }

  lemma {:induction false} CollectNeedsFinalAnswer(acc: UniqueRepos, pairs: seq<Binding>, answers: seq<string>,
                                                   extra: seq<string>)
    requires |pairs| == |answers|
    requires forall i :: 0 <= i < |answers| ==> IsAffirmative(answers[i])
    requires |extra| < 3
    ensures CollectRepos(Rounds(pairs, answers) + extra, acc) == None
    decreases |pairs|
  {
    if |pairs| > 0 {
      RoundsThenMore(pairs, answers, extra);
      assert IsAffirmative(answers[0]);
      CollectNeedsFinalAnswer(Put(acc, pairs[0].name, pairs[0].path), pairs[1..], answers[1..], extra);
    }
  }

  /** The first round of the script, and the script that follows it. */
  lemma RoundsThenMore(pairs: seq<Binding>, answers: seq<string>, extra: seq<string>)
    requires |pairs| == |answers| > 0
    ensures var lines := Rounds(pairs, answers) + extra;
      && |lines| >= 3
      && lines[0] == pairs[0].name && lines[1] == pairs[0].path && lines[2] == answers[0]
      && lines[3..] == Rounds(pairs[1..], answers[1..]) + extra
  {
    ThreeThenMore(pairs[0].name, pairs[0].path, answers[0], Rounds(pairs[1..], answers[1..]), extra);
  }

  lemma ThreeThenMore<T>(a: T, b: T, c: T, rest: seq<T>, extra: seq<T>)
    ensures var s := [a, b, c] + rest + extra;
      |s| >= 3 && s[0] == a && s[1] == b && s[2] == c && s[3..] == rest + extra
  {
    var s := [a, b, c] + rest + extra;
    assert s == [a, b, c] + (rest + extra);
  }

  /** While every answer is `y`/`yes` the wizard keeps asking, so input that
      ends there, or partway into the next round, writes no configuration. */
  lemma WizardNeedsFinalAnswer(name: string, title: string, pairs: seq<Binding>, answers: seq<string>,
                               extra: seq<string>)
    requires |pairs| == |answers|
    requires forall i :: 0 <= i < |answers| ==> IsAffirmative(answers[i])
    requires |extra| < 3
    ensures Wizard([name, title] + Rounds(pairs, answers) + extra) == None
  {
    var lines := [name, title] + Rounds(pairs, answers) + extra;
    assert lines[2..] == Rounds(pairs, answers) + extra;
    CollectNeedsFinalAnswer([], pairs, answers, extra);
  }

  lemma NoIsNotAffirmative()
    ensures !IsAffirmative("no")
  {
    AffirmativeIsYesInAnyCase("no");
  }

  /** A word without surrounding space is kept as typed. */
  lemma TrimOrKeeps(answer: string, fallback: string)
    requires answer != "" && Trimmed(answer)
    requires fallback != "" && Trimmed(fallback)
    ensures TrimOr(answer, fallback) == answer
  {
    assert "" + answer + "" == answer;
    TrimIsCore("", answer, "");
  }

  lemma WordIsTrimmed(w: string)
    requires |w| > 0
    requires 'A' <= w[0] <= 'z' && 'A' <= w[|w| - 1] <= 'z'
    ensures Trimmed(w)
  {
  }

  lemma ExampleAnswersKept()
    ensures TrimOr("Ann", DefaultName) == "Ann"
    ensures TrimOr("ma'am", DefaultTitle) == "ma'am"
  {
    WordIsTrimmed(DefaultName);
    WordIsTrimmed(DefaultTitle);
    WordIsTrimmed("Ann");
    WordIsTrimmed("ma'am");
    TrimOrKeeps("Ann", DefaultName);
    TrimOrKeeps("ma'am", DefaultTitle);
  }

  lemma ExampleScript()
    ensures ["Ann", "ma'am"] + Rounds([Binding("work", "/home/ann/work")], ["no"]) + []
         == ["Ann", "ma'am", "work", "/home/ann/work", "no"]
    ensures PutAll([], [Binding("work", "/home/ann/work")]) == [Binding("work", "/home/ann/work")]
  {
    var pairs := [Binding("work", "/home/ann/work")];
    assert Rounds(pairs, ["no"]) == ["work", "/home/ann/work", "no"];
  }

  /** A first run that answers Ann, ma'am, one repository and `no`. */
  lemma WizardExample()
    ensures Wizard(["Ann", "ma'am", "work", "/home/ann/work", "no"])
         == Some(Config("Ann", "ma'am", [Binding("work", "/home/ann/work")]))
  {
    NoIsNotAffirmative();
    WizardReadsScript("Ann", "ma'am", [Binding("work", "/home/ann/work")], ["no"], []);
    ExampleScript();
    ExampleAnswersKept();
  }
}
