/** `findGitRepos` inside `repoAddDirectory`: a recursive walk of a directory
    listing that records every directory holding a `.git` directory. The
    filesystem is an inductive tree; each directory's children are listed in
    the order `readdirSync` returns them. */
module Discovery {
  import opened Paths

  /** A directory entry. `Other` is anything `Dirent.isDirectory()` rejects:
      regular files, and symbolic links even when they point at directories. */
  datatype Node = Dir(name: string, children: seq<Node>) | Other(name: string)

  const GitDir := ".git"

  /** The repository roots found under `dir`, whose listing is `entries`, in
      pre-order: a `.git` entry contributes `dir` with a trailing separator
      and is not entered; any other directory is walked in place. */
  function FindGitRepos(dir: string, entries: seq<Node>): (found: seq<string>)
    ensures dir != "" ==> forall i :: 0 <= i < |found| ==> found[i] != ""
    decreases entries
  {
    if |entries| == 0 then []
    else
      var e := entries[0];
      var here :=
        match e
        case Other(_) => []
        case Dir(n, cs) =>
          var fullPath := Join(dir, n);
          if n == GitDir then
            GitParent(dir);
            [DropLast(fullPath, 4)]
          else
            assert e in entries;
            FindGitRepos(fullPath, cs);
      here + FindGitRepos(dir, entries[1..])
  }

  /** The listing order is kept: scanning two listings one after the other
      finds the concatenation of what each finds. */
  lemma {:induction false} FindGitReposAppend(dir: string, a: seq<Node>, b: seq<Node>)
    ensures FindGitRepos(dir, a + b) == FindGitRepos(dir, a) + FindGitRepos(dir, b)
    decreases |a|
  {
    if |a| == 0 {
      assert a + b == b;
    } else {
      var c := a + b;
      assert c[..1] == a[..1] && c[1..] == a[1..] + b;
      FindGitReposStep(dir, c);
      FindGitReposStep(dir, a);
      FindGitReposAppend(dir, a[1..], b);
      AppendAssoc(FindGitRepos(dir, a[..1]), FindGitRepos(dir, a[1..]), FindGitRepos(dir, b));
    }
  }

  /** One step of the walk: what the first entry contributes, before what
      the rest of the listing does. */
  lemma FindGitReposCons(dir: string, entries: seq<Node>)
    requires |entries| > 0
    ensures entries[0].Other? ==> FindGitRepos(dir, entries) == FindGitRepos(dir, entries[1..])
    ensures entries[0].Dir? && entries[0].name == GitDir ==>
      FindGitRepos(dir, entries) == [WithSeparator(dir)] + FindGitRepos(dir, entries[1..])
    ensures entries[0].Dir? && entries[0].name != GitDir ==>
      FindGitRepos(dir, entries)
      == FindGitRepos(Join(dir, entries[0].name), entries[0].children) + FindGitRepos(dir, entries[1..])
  {
    GitParent(dir);
  }

  lemma AppendAssoc<T>(x: seq<T>, y: seq<T>, z: seq<T>)
    ensures x + (y + z) == (x + y) + z
  {
  }

  /** The first entry's findings come before the rest's. */
  lemma FindGitReposStep(dir: string, entries: seq<Node>)
    requires |entries| > 0
    ensures FindGitRepos(dir, entries) == FindGitRepos(dir, entries[..1]) + FindGitRepos(dir, entries[1..])
  {
    assert entries[..1][0] == entries[0] && entries[..1][1..] == [];
  }

  /** `route` names a chain of nested directories starting in `entries`. */
  ghost predicate HasRoute(entries: seq<Node>, route: seq<string>)
    decreases route
  {
    |route| > 0 ==>
      exists i :: 0 <= i < |entries| && entries[i].Dir? && entries[i].name == route[0]
        && HasRoute(entries[i].children, route[1..])
  }

  /** The directory reached by `route` holds a `.git` directory, and the walk
      gets there without passing through another `.git`. */
  ghost predicate RepoAt(entries: seq<Node>, route: seq<string>) {
    GitDir !in route && HasRoute(entries, route + [GitDir])
  }

  /** The path of the directory reached from `dir` along `route`. */
  function JoinAll(dir: string, route: seq<string>): string
    decreases |route|
  {
    if |route| == 0 then dir else JoinAll(Join(dir, route[0]), route[1..])
  }

  /** One entry's finds are among the finds of the listing that holds it. */
  lemma {:induction false} EntryFindsIncluded(dir: string, entries: seq<Node>, i: nat, p: string)
    requires i < |entries| && entries[i].Dir?
    requires entries[i].name == GitDir ==> p == WithSeparator(dir)
    requires entries[i].name != GitDir ==> p in FindGitRepos(Join(dir, entries[i].name), entries[i].children)
    ensures p in FindGitRepos(dir, entries)
    decreases i
  {
    FindGitReposCons(dir, entries);
    if i > 0 {
      EntryFindsIncluded(dir, entries[1..], i - 1, p);
    }
  }

  /** Every repository the walk may reach is found. */
  lemma {:induction false} RouteFound(dir: string, entries: seq<Node>, route: seq<string>)
    requires RepoAt(entries, route)
    ensures WithSeparator(JoinAll(dir, route)) in FindGitRepos(dir, entries)
    decreases |route|
  {
    var full := route + [GitDir];
    var i :| 0 <= i < |entries| && entries[i].Dir? && entries[i].name == full[0]
      && HasRoute(entries[i].children, full[1..]);
    if |route| == 0 {
      EntryFindsIncluded(dir, entries, i, WithSeparator(dir));
    } else {
      var n := route[0];
      assert full[1..] == route[1..] + [GitDir];
      assert GitDir !in route[1..] by {
        forall j | 0 <= j < |route[1..]| ensures route[1..][j] != GitDir {
          assert route[1..][j] == route[j + 1];
        }
      }
      assert n != GitDir by { assert route[0] in route; }
      RouteFound(Join(dir, n), entries[i].children, route[1..]);
      EntryFindsIncluded(dir, entries, i, WithSeparator(JoinAll(dir, route)));
    }
  }

  lemma RouteFromTail(entries: seq<Node>, route: seq<string>)
    requires |entries| > 0 && RepoAt(entries[1..], route)
    ensures RepoAt(entries, route)
  {
    var full := route + [GitDir];
    var i :| 0 <= i < |entries[1..]| && entries[1..][i].Dir? && entries[1..][i].name == full[0]
      && HasRoute(entries[1..][i].children, full[1..]);
    assert entries[i + 1] == entries[1..][i];
  }

  lemma RouteFromGit(entries: seq<Node>)
    requires |entries| > 0 && entries[0].Dir? && entries[0].name == GitDir
    ensures RepoAt(entries, [])
  {
    assert [] + [GitDir] == [GitDir];
    assert HasRoute(entries[0].children, [GitDir][1..]);
  }

  lemma RouteFromChild(entries: seq<Node>, sub: seq<string>)
    requires |entries| > 0 && entries[0].Dir? && entries[0].name != GitDir
    requires RepoAt(entries[0].children, sub)
    ensures RepoAt(entries, [entries[0].name] + sub)
  {
    var route := [entries[0].name] + sub;
    assert (route + [GitDir])[1..] == sub + [GitDir];
    assert (route + [GitDir])[0] == entries[0].name;
  }

  /** Everything found is a repository the walk may reach. */
  lemma {:induction false} FoundHasRoute(dir: string, entries: seq<Node>, p: string)
    requires p in FindGitRepos(dir, entries)
    ensures exists route :: RepoAt(entries, route) && p == WithSeparator(JoinAll(dir, route))
    decreases entries, 1
  {
    if p in FindGitRepos(dir, entries[1..]) {
      FoundHasRoute(dir, entries[1..], p);
      var route :| RepoAt(entries[1..], route) && p == WithSeparator(JoinAll(dir, route));
      RouteFromTail(entries, route);
    } else {
      FoundInFirstEntry(dir, entries, p);
    }
  }

  lemma {:induction false} FoundInFirstEntry(dir: string, entries: seq<Node>, p: string)
    requires p in FindGitRepos(dir, entries)
    requires p !in FindGitRepos(dir, entries[1..])
    ensures exists route :: RepoAt(entries, route) && p == WithSeparator(JoinAll(dir, route))
    decreases entries, 0
  {
    var e := entries[0];
    assert e.Dir? && (e.name == GitDir ==> p == WithSeparator(dir))
      && (e.name != GitDir ==> p in FindGitRepos(Join(dir, e.name), e.children)) by {
      FindGitReposCons(dir, entries);
    }
    if e.name == GitDir {
      RouteFromGit(entries);
      assert p == WithSeparator(JoinAll(dir, []));
    } else {
      assert e in entries;
      FoundHasRoute(Join(dir, e.name), e.children, p);
      var sub :| RepoAt(e.children, sub) && p == WithSeparator(JoinAll(Join(dir, e.name), sub));
      RouteFromChild(entries, sub);
      var route := [e.name] + sub;
      assert route[0] == e.name && route[1..] == sub;
      assert p == WithSeparator(JoinAll(dir, route));
    }
  }

  /** The walk finds exactly the directories that hold a `.git` directory
      and are reachable without entering a `.git`: nested repositories and
      repositories beside a `.git` are found, files and links are ignored,
      and nothing inside a `.git` is looked at. */
  lemma FindGitReposIsComplete(dir: string, entries: seq<Node>, p: string)
    ensures p in FindGitRepos(dir, entries)
        <==> exists route :: RepoAt(entries, route) && p == WithSeparator(JoinAll(dir, route))
  {
    if p in FindGitRepos(dir, entries) {
      FoundHasRoute(dir, entries, p);
    }
    if exists route :: RepoAt(entries, route) && p == WithSeparator(JoinAll(dir, route)) {
      var route :| RepoAt(entries, route) && p == WithSeparator(JoinAll(dir, route));
      RouteFound(dir, entries, route);
    }
  }

  lemma {:induction false} JoinAllLast(dir: string, route: seq<string>)
    requires |route| > 0
    ensures JoinAll(dir, route) == Join(JoinAll(dir, route[..|route| - 1]), route[|route| - 1])
    decreases |route|
  {
    if |route| > 1 {
      JoinAllLast(Join(dir, route[0]), route[1..]);
      assert route[1..][..|route| - 2] == route[1..|route| - 1];
      assert route[..|route| - 1][1..] == route[1..|route| - 1];
    }
  }

  /** The key a found repository is registered under by the bulk add: the
      name of the directory that holds the `.git`, or the basename of the
      scanned directory itself when the `.git` sits directly in it. */
  lemma RepoKey(dir: string, route: seq<string>)
    requires forall i :: 0 <= i < |route| ==> IsEntryName(route[i])
    ensures |route| == 0 ==> Basename(WithSeparator(JoinAll(dir, route))) == Basename(dir)
    ensures |route| > 0 ==> Basename(WithSeparator(JoinAll(dir, route))) == route[|route| - 1]
  {
    if |route| == 0 {
      BasenameWithSeparator(dir);
    } else {
      JoinAllLast(dir, route);
      BasenameOfChild(JoinAll(dir, route[..|route| - 1]), route[|route| - 1]);
    }
  }

  lemma ScanProj1()
    ensures FindGitRepos("/root/proj1", [Dir(".git", [Dir("hooks", [Dir(".git", [])])]), Other("README.md")])
         == ["/root/proj1/"]
  {
    var proj1 := [Dir(".git", [Dir("hooks", [Dir(".git", [])])]), Other("README.md")];
    assert Join("/root/proj1", ".git") == "/root/proj1/.git";
    assert DropLast("/root/proj1/.git", 4) == "/root/proj1/";
    assert FindGitRepos("/root/proj1", proj1[1..]) == [];
  }

  lemma ScanNested()
    ensures FindGitRepos("/root/nested", [Dir("proj2", [Dir(".git", [])])]) == ["/root/nested/proj2/"]
  {
    var proj2 := [Dir(".git", [])];
    assert Join("/root/nested", "proj2") == "/root/nested/proj2";
    assert Join("/root/nested/proj2", ".git") == "/root/nested/proj2/.git";
    assert DropLast("/root/nested/proj2/.git", 4) == "/root/nested/proj2/";
    assert FindGitRepos("/root/nested/proj2", proj2) == ["/root/nested/proj2/"];
  }

  /** Two repositories, one nested a level deeper, and a `.git` whose own
      contents are skipped: both roots are found, each with a trailing
      separator, in listing order. */
  lemma ScanExample()
    ensures FindGitRepos("/root", [
              Dir("proj1", [Dir(".git", [Dir("hooks", [Dir(".git", [])])]), Other("README.md")]),
              Dir("nested", [Dir("proj2", [Dir(".git", [])])])
            ]) == ["/root/proj1/", "/root/nested/proj2/"]
  {
    var top := [
      Dir("proj1", [Dir(".git", [Dir("hooks", [Dir(".git", [])])]), Other("README.md")]),
      Dir("nested", [Dir("proj2", [Dir(".git", [])])])
    ];
    assert Join("/root", "proj1") == "/root/proj1";
    assert Join("/root", "nested") == "/root/nested";
    ScanProj1();
    ScanNested();
    assert FindGitRepos("/root", top[1..]) == ["/root/nested/proj2/"];
  }
}
