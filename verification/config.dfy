/** The configuration file and the operations that read and rewrite it:
    the load defaults of `initialize`, `addRepo`, `deleteRepo` and the
    bulk registration of `repoAddDirectory`. The file is an in-memory value;
    `None` stands for a file that does not exist. */
module ConfigStore {
  import opened Wrappers
  import opened Repos
  import opened Paths

  /** The parsed JSON object. A field is None when the object lacks it or
      holds `null`. */
  datatype StoredConfig = StoredConfig(name: Option<string>, title: Option<string>, repos: Option<UniqueRepos>)

  /** The fields the running assistant works with. */
  datatype Config = Config(name: string, title: string, repos: UniqueRepos)

  const DefaultName := "Wayne"
  const DefaultTitle := "sir"

  /** `value || fallback` on an optional string. */
  function OrElse(v: Option<string>, fallback: string): string {
    if Truthy(v) then v.value else fallback
  }

  /** The repos of a file, or none when the file or its field is missing. */
  function ReposOf(file: Option<StoredConfig>): UniqueRepos {
    if file.Some? && file.value.repos.Some? then file.value.repos.value else []
  }

  /** The defaults `initialize` applies to a file that exists: a missing
      `repos` is empty, and a missing or empty name or title falls back to
      Wayne and sir. */
  function Load(stored: StoredConfig): (c: Config)
    ensures c.name != "" && c.title != ""
    ensures Truthy(stored.name) ==> c.name == stored.name.value
    ensures !Truthy(stored.name) ==> c.name == DefaultName
    ensures Truthy(stored.title) ==> c.title == stored.title.value
    ensures !Truthy(stored.title) ==> c.title == DefaultTitle
    ensures c.repos == ReposOf(Some(stored))
  {
    Config(OrElse(stored.name, DefaultName), OrElse(stored.title, DefaultTitle),
           if stored.repos.Some? then stored.repos.value else [])
  }

  /** The object the setup wizard writes: every field present. */
  function Save(c: Config): (s: StoredConfig)
    ensures s.name.Some? && s.title.Some? && s.repos.Some?
    ensures Load(s).repos == c.repos
    ensures Load(s).name == if c.name == "" then DefaultName else c.name
    ensures Load(s).title == if c.title == "" then DefaultTitle else c.title
  {
    StoredConfig(Some(c.name), Some(c.title), Some(c.repos))
  }

  /** Saving and loading gives the configuration back exactly when its name
      and title are non-empty; an empty one reads back as its default. */
  lemma LoadSave(c: Config)
    ensures Load(Save(c)) == c <==> c.name != "" && c.title != ""
  {
  }

  /** `addRepo`: the file (or an empty object when there is none) gets a
      `repos` field if it lacked one, and `repos[name] = path`. */
  function AddRepo(file: Option<StoredConfig>, name: string, path: string): (s: StoredConfig)
    ensures s.repos.Some?
    ensures Lookup(s.repos.value, name) == Some(path)
    ensures forall k :: k != name ==> Lookup(s.repos.value, k) == Lookup(ReposOf(file), k)
    ensures file.Some? ==> s.name == file.value.name && s.title == file.value.title
    ensures file.None? ==> s.name == None && s.title == None
  {
    var base := if file.Some? then file.value else StoredConfig(None, None, None);
    base.(repos := Some(Put(ReposOf(file), name, path)))
  }

  /** After adding, loading the file yields the new path under that name,
      whatever it held before. */
  lemma AddThenLoad(file: Option<StoredConfig>, name: string, path: string)
    ensures Lookup(Load(AddRepo(file, name, path)).repos, name) == Some(path)
  {
  }

  /** What `deleteRepo` reports. */
  datatype DeleteOutcome =
    | NoConfigFile        // the file does not exist: nothing is written
    | DeletedAll          // `all`: the map is emptied
    | Deleted             // a known key was removed
    | NotInList           // an unknown key: returns early, nothing is written
    | ReposFieldMissing   // `Object.keys(undefined)` throws: nothing is written

  datatype Deletion = Deletion(outcome: DeleteOutcome, file: Option<StoredConfig>)

  const AllRepos := "all"

  /** `deleteRepo`: `all` empties the map, a known key is removed, and in
      every other case the file is left as it was. */
  function DeleteRepo(file: Option<StoredConfig>, name: string): (d: Deletion)
    ensures file.None? ==> d == Deletion(NoConfigFile, file)
    ensures file.Some? && name == AllRepos ==>
      d == Deletion(DeletedAll, Some(file.value.(repos := Some([]))))
    ensures d.outcome == Deleted <==>
      file.Some? && name != AllRepos && file.value.repos.Some? && Lookup(file.value.repos.value, name).Some?
    ensures d.outcome == Deleted ==>
      d.file.Some? && d.file.value.name == file.value.name && d.file.value.title == file.value.title
      && d.file.value.repos.Some?
      && Lookup(d.file.value.repos.value, name) == None
      && (forall k :: k != name ==> Lookup(d.file.value.repos.value, k) == Lookup(file.value.repos.value, k))
    ensures d.outcome == DeletedAll <==> file.Some? && name == AllRepos
    ensures d.outcome == NotInList <==>
      file.Some? && name != AllRepos && file.value.repos.Some? && Lookup(file.value.repos.value, name).None?
    ensures d.outcome in {NoConfigFile, NotInList, ReposFieldMissing} ==> d.file == file
    ensures d.outcome == ReposFieldMissing <==> file.Some? && name != AllRepos && file.value.repos.None?
  {
    if file.None? then Deletion(NoConfigFile, file)
    else
      var stored := file.value;
      if name == AllRepos then Deletion(DeletedAll, Some(stored.(repos := Some([]))))
      else if stored.repos.None? then Deletion(ReposFieldMissing, file)
      else if name in Names(stored.repos.value) then
        Deletion(Deleted, Some(stored.(repos := Some(Remove(stored.repos.value, name)))))
      else Deletion(NotInList, file)
  }

  /** Deleting a key of a well-formed map removes that one binding and keeps
      the order of the rest. */
  lemma DeleteKeepsOrder(file: Option<StoredConfig>, i: nat)
    requires file.Some? && file.value.repos.Some?
    requires UniqueNames(file.value.repos.value)
    requires i < |file.value.repos.value|
    requires file.value.repos.value[i].name != AllRepos
    ensures DeleteRepo(file, file.value.repos.value[i].name).file.value.repos.value
         == file.value.repos.value[..i] + file.value.repos.value[i + 1..]
  {
    var r := file.value.repos.value;
    assert Names(r)[i] == r[i].name;
    RemoveExactlyOne(r, i);
  }

  /** The first of `paths` whose basename is `k`. */
  function FirstWithBasename(paths: seq<string>, k: string): (p: Option<string>)
    ensures p.Some? ==> p.value in paths && Basename(p.value) == k
    ensures p.None? ==> forall i :: 0 <= i < |paths| ==> Basename(paths[i]) != k
  {
    if |paths| == 0 then None
    else if Basename(paths[0]) == k then Some(paths[0])
    else FirstWithBasename(paths[1..], k)
  }

  /** One step of the bulk registration: the path is stored under its
      basename unless that key already holds a non-empty path. */
  function MergeOne(r: RepoList, path: string): RepoList {
    var key := Basename(path);
    if Truthy(Lookup(r, key)) then r else Put(r, key, path)
  }

  lemma MergeOneKeeps(r: RepoList, path: string)
    ensures forall k :: Truthy(Lookup(r, k)) ==> Lookup(MergeOne(r, path), k) == Lookup(r, k)
    ensures |Names(r)| <= |Names(MergeOne(r, path))|
    ensures Names(MergeOne(r, path))[..|Names(r)|] == Names(r)
    ensures UniqueNames(r) ==> UniqueNames(MergeOne(r, path))
  {
    MergeOneKeepsPaths(r, path);
    MergeOneKeepsNames(r, path);
  }

  lemma MergeOneKeepsPaths(r: RepoList, path: string)
    ensures forall k :: Truthy(Lookup(r, k)) ==> Lookup(MergeOne(r, path), k) == Lookup(r, k)
  {
  }

  lemma MergeOneKeepsNames(r: RepoList, path: string)
    ensures |Names(r)| <= |Names(MergeOne(r, path))|
    ensures Names(MergeOne(r, path))[..|Names(r)|] == Names(r)
    ensures UniqueNames(r) ==> UniqueNames(MergeOne(r, path))
  {
    var key := Basename(path);
    assert Names(r)[..|Names(r)|] == Names(r);
    if !Truthy(Lookup(r, key)) {
      var r' := Put(r, key, path);
      assert MergeOne(r, path) == r';
      if key !in Names(r) {
        assert Names(r') == Names(r) + [key];
        assert (Names(r) + [key])[..|Names(r)|] == Names(r);
      }
    }
  }

  /** The facts `MergeDiscovered` keeps, chained over two steps. */
  lemma KeepsCompose(r: RepoList, r1: RepoList, r2: RepoList)
    requires forall k :: Truthy(Lookup(r, k)) ==> Lookup(r1, k) == Lookup(r, k)
    requires |Names(r)| <= |Names(r1)| && Names(r1)[..|Names(r)|] == Names(r)
    requires UniqueNames(r) ==> UniqueNames(r1)
    requires forall k :: Truthy(Lookup(r1, k)) ==> Lookup(r2, k) == Lookup(r1, k)
    requires |Names(r1)| <= |Names(r2)| && Names(r2)[..|Names(r1)|] == Names(r1)
    requires UniqueNames(r1) ==> UniqueNames(r2)
    ensures forall k :: Truthy(Lookup(r, k)) ==> Lookup(r2, k) == Lookup(r, k)
    ensures |Names(r)| <= |Names(r2)| && Names(r2)[..|Names(r)|] == Names(r)
    ensures UniqueNames(r) ==> UniqueNames(r2)
  {
    assert Names(r2)[..|Names(r)|] == Names(r2)[..|Names(r1)|][..|Names(r)|];
  }

  /** The bulk registration of `repoAddDirectory`, with the own-property
      test the code evidently intends (see `MergeDiscoveredAsWritten`). */
  function MergeDiscovered(r: RepoList, paths: seq<string>): (r': RepoList)
    ensures forall k :: Truthy(Lookup(r, k)) ==> Lookup(r', k) == Lookup(r, k)
    ensures |Names(r)| <= |Names(r')| && Names(r')[..|Names(r)|] == Names(r)
    ensures UniqueNames(r) ==> UniqueNames(r')
    decreases |paths|
  {
    if |paths| == 0 then r
    else
      var r1 := MergeOne(r, paths[0]);
      MergeOneKeeps(r, paths[0]);
      var r' := MergeDiscovered(r1, paths[1..]);
      KeepsCompose(r, r1, r');
      r'
  }

  /** What every key holds after the bulk registration: a key that held a
      non-empty path keeps it; otherwise the first discovered path with that
      basename, if there is one; otherwise the key is as before. */
  lemma {:induction false} MergeDiscoveredValue(r: RepoList, paths: seq<string>, k: string)
    requires forall i :: 0 <= i < |paths| ==> paths[i] != ""
    ensures Lookup(MergeDiscovered(r, paths), k) ==
      if Truthy(Lookup(r, k)) then Lookup(r, k)
      else if FirstWithBasename(paths, k).Some? then FirstWithBasename(paths, k)
      else Lookup(r, k)
    decreases |paths|
  {
    if |paths| > 0 {
      var key := Basename(paths[0]);
      var r1 := MergeOne(r, paths[0]);
      assert MergeDiscovered(r, paths) == MergeDiscovered(r1, paths[1..]);
      MergeDiscoveredValue(r1, paths[1..], k);
      if key == k {
        assert FirstWithBasename(paths, k) == Some(paths[0]);
        if !Truthy(Lookup(r, k)) {
          assert r1 == Put(r, k, paths[0]);
          assert Truthy(Lookup(r1, k));
        }
      } else {
        assert FirstWithBasename(paths, k) == FirstWithBasename(paths[1..], k);
        assert Lookup(r1, k) == Lookup(r, k);
      }
    }
  }

  /** The names `Object.prototype` gives every object. Reading one of them
      from an object that has no such own key yields a function or an
      object, which is truthy. */
  const InheritedNames: set<string> := {
    "constructor", "hasOwnProperty", "isPrototypeOf", "propertyIsEnumerable",
    "toLocaleString", "toString", "valueOf", "__proto__",
    "__defineGetter__", "__defineSetter__", "__lookupGetter__", "__lookupSetter__"
  }

  /** `!!repos[k]` as JavaScript evaluates it, inherited properties included. */
  predicate TruthyAsWritten(r: RepoList, k: string) {
    Truthy(Lookup(r, k)) || (Lookup(r, k).None? && k in InheritedNames)
  }

  /** The bulk registration exactly as the code writes it: the test
      `!configJson.repos[repo]` also sees the inherited properties. */
  function MergeDiscoveredAsWritten(r: RepoList, paths: seq<string>): (r': RepoList)
    ensures forall k :: k in InheritedNames && Lookup(r, k).None? ==> Lookup(r', k).None?
    decreases |paths|
  {
    if |paths| == 0 then r
    else
      var key := Basename(paths[0]);
      var r1 := if TruthyAsWritten(r, key) then r else Put(r, key, paths[0]);
      MergeDiscoveredAsWritten(r1, paths[1..])
  }

  /** A repository whose directory carries an inherited name such as
      `constructor` is silently left out by the code as written, while the
      intended own-property test registers it. */
  lemma InheritedNameSkipped(parent: string, k: string)
    requires k in InheritedNames
    ensures MergeDiscoveredAsWritten([], [WithSeparator(Join(parent, k))]) == []
    ensures MergeDiscovered([], [WithSeparator(Join(parent, k))]) == [Binding(k, WithSeparator(Join(parent, k)))]
  {
    assert IsEntryName(k);
    BasenameOfChild(parent, k);
    var p := WithSeparator(Join(parent, k));
    var paths := [p];
    assert TruthyAsWritten([], k);
    assert MergeDiscoveredAsWritten([], paths) == MergeDiscoveredAsWritten([], paths[1..]);
    assert MergeOne([], p) == [Binding(k, p)];
    assert MergeDiscovered([], paths) == MergeDiscovered(MergeOne([], paths[0]), paths[1..]);
  }

  /** Why a bulk registration wrote nothing. */
  datatype ScanFailure = ReposFieldAbsent   // `configJson.repos[repo]` on `undefined` throws

  /** `repoAddDirectory` after the scan: `loadConfig` (an object holding an
      empty `repos` when there is no file), the merge of the found paths, and
      `saveConfig`. */
  function RepoAddDirectory(file: Option<StoredConfig>, found: seq<string>): (r: Result<StoredConfig, ScanFailure>)
    ensures r.Err? <==> |found| > 0 && file.Some? && file.value.repos.None?
    ensures r.Ok? && file.Some? ==> r.value.name == file.value.name && r.value.title == file.value.title
    ensures r.Ok? && |found| > 0 ==> r.value.repos == Some(MergeDiscovered(ReposOf(file), found))
    ensures |found| == 0 && file.Some? ==> r == Ok(file.value)
    ensures file.None? ==> r == Ok(StoredConfig(None, None, Some(MergeDiscovered([], found))))
    ensures r.Ok? && r.value.repos.Some? ==>
      forall k :: Truthy(Lookup(ReposOf(file), k)) ==> Lookup(r.value.repos.value, k) == Lookup(ReposOf(file), k)
  {
    var loaded := if file.Some? then file.value else StoredConfig(None, None, Some([]));
    if |found| == 0 then Ok(loaded)
    else if loaded.repos.None? then Err(ReposFieldAbsent)
    else Ok(loaded.(repos := Some(MergeDiscovered(loaded.repos.value, found))))
  }
}
