/** The `repos` object of the configuration: friendly names mapped to paths.
    A JavaScript object enumerates its own string keys in insertion order,
    so it is modelled as an association list; assigning to an existing key
    keeps its position, assigning a new key appends it, and `delete` removes
    it without reordering the rest. */
module Repos {
  import opened Wrappers

  datatype Binding = Binding(name: string, path: string)

  type RepoList = seq<Binding>

  /** `Object.keys(repos)`. */
  function Names(r: RepoList): (ns: seq<string>)
    ensures |ns| == |r|
    ensures forall i :: 0 <= i < |r| ==> ns[i] == r[i].name
  {
    if |r| == 0 then [] else [r[0].name] + Names(r[1..])
  }

  predicate Distinct(ns: seq<string>) {
    forall i, j :: 0 <= i < j < |ns| ==> ns[i] != ns[j]
  }

  /** Keys of an object are unique. */
  predicate UniqueNames(r: RepoList) {
    Distinct(Names(r))
  }

  /** A map as a JSON object can hold it: no key appears twice. */
  type UniqueRepos = r: RepoList | UniqueNames(r) witness []

  /** `repos[k]` for an own property `k`; None is `undefined`. */
  function Lookup(r: RepoList, k: string): (v: Option<string>)
    ensures v.Some? <==> k in Names(r)
    ensures v.Some? ==> Binding(k, v.value) in r
  {
    if |r| == 0 then None
    else if r[0].name == k then Some(r[0].path)
    else Lookup(r[1..], k)
  }

  /** JavaScript truthiness of a looked-up path: `undefined` and "" are falsy. */
  predicate Truthy(v: Option<string>) {
    v.Some? && v.value != ""
  }

  /** `repos[k] = v`. */
  function Put(r: RepoList, k: string, v: string): (r': RepoList)
    ensures Lookup(r', k) == Some(v)
    ensures forall k' :: k' != k ==> Lookup(r', k') == Lookup(r, k')
    ensures Names(r') == if k in Names(r) then Names(r) else Names(r) + [k]
    ensures UniqueNames(r) ==> UniqueNames(r')
  {
    var r' := PutFirst(r, k, v);
    assert UniqueNames(r) ==> UniqueNames(r') by {
      if UniqueNames(r) && k !in Names(r) {
        var ns := Names(r) + [k];
        forall i, j | 0 <= i < j < |ns| ensures ns[i] != ns[j] {
          if j == |ns| - 1 { assert ns[i] in Names(r); }
        }
      }
    }
    r'
  }

  function PutFirst(r: RepoList, k: string, v: string): (r': RepoList)
    ensures Lookup(r', k) == Some(v)
    ensures forall k' :: k' != k ==> Lookup(r', k') == Lookup(r, k')
    ensures Names(r') == if k in Names(r) then Names(r) else Names(r) + [k]
  {
    if |r| == 0 then [Binding(k, v)]
    else if r[0].name == k then
      PutHead(r, k, v);
      [Binding(k, v)] + r[1..]
    else
      var rest := PutFirst(r[1..], k, v);
      PutCons(r, k, v, rest);
      [r[0]] + rest
  }

  lemma PutHead(r: RepoList, k: string, v: string)
    requires |r| > 0 && r[0].name == k
    ensures Lookup([Binding(k, v)] + r[1..], k) == Some(v)
    ensures forall k' :: k' != k ==> Lookup([Binding(k, v)] + r[1..], k') == Lookup(r, k')
    ensures Names([Binding(k, v)] + r[1..]) == Names(r)
  {
    assert ([Binding(k, v)] + r[1..])[1..] == r[1..];
    NamesCons(Binding(k, v), r[1..]);
    NamesCons(r[0], r[1..]);
    assert [r[0]] + r[1..] == r;
  }

  lemma PutCons(r: RepoList, k: string, v: string, rest: RepoList)
    requires |r| > 0 && r[0].name != k
    requires Lookup(rest, k) == Some(v)
    requires forall k' :: k' != k ==> Lookup(rest, k') == Lookup(r[1..], k')
    requires Names(rest) == if k in Names(r[1..]) then Names(r[1..]) else Names(r[1..]) + [k]
    ensures Lookup([r[0]] + rest, k) == Some(v)
    ensures forall k' :: k' != k ==> Lookup([r[0]] + rest, k') == Lookup(r, k')
    ensures Names([r[0]] + rest) == if k in Names(r) then Names(r) else Names(r) + [k]
  {
    var r' := [r[0]] + rest;
    assert r'[0] == r[0] && r'[1..] == rest;
    forall k' | k' != k ensures Lookup(r', k') == Lookup(r, k') {
      if k' != r[0].name {
        assert Lookup(r', k') == Lookup(rest, k');
      }
    }
    PutConsNames(r, k, rest);
  }

  lemma PutConsNames(r: RepoList, k: string, rest: RepoList)
    requires |r| > 0 && r[0].name != k
    requires Names(rest) == if k in Names(r[1..]) then Names(r[1..]) else Names(r[1..]) + [k]
    ensures Names([r[0]] + rest) == if k in Names(r) then Names(r) else Names(r) + [k]
  {
    var x := r[0].name;
    NamesCons(r[0], rest);
    NamesCons(r[0], r[1..]);
    assert [r[0]] + r[1..] == r;
    assert k in Names(r) <==> k in Names(r[1..]);
    if k !in Names(r[1..]) {
      assert [x] + (Names(r[1..]) + [k]) == ([x] + Names(r[1..])) + [k];
    }
  }

  lemma NamesCons(b: Binding, r: RepoList)
    ensures Names([b] + r) == [b.name] + Names(r)
  {
    assert ([b] + r)[1..] == r;
  }

  /** `delete repos[k]`. */
  function Remove(r: RepoList, k: string): (r': RepoList)
    ensures Lookup(r', k) == None
    ensures forall k' :: k' != k ==> Lookup(r', k') == Lookup(r, k')
    ensures k !in Names(r) ==> r' == r
    ensures UniqueNames(r) ==> UniqueNames(r')
  {
    if |r| == 0 then []
    else
      var rest := Remove(r[1..], k);
      if r[0].name == k then
        assert UniqueNames(r) ==> UniqueNames(r[1..]) by {
          if UniqueNames(r) { UniqueTail(r); }
        }
        rest
      else
        NamesCons(r[0], rest);
        NamesCons(r[0], r[1..]);
        assert [r[0]] + r[1..] == r;
        assert UniqueNames(r) ==> UniqueNames([r[0]] + rest) by {
          if UniqueNames(r) {
            UniqueTail(r);
            assert Lookup(rest, r[0].name) == None;
            DistinctCons(r[0].name, Names(rest));
          }
        }
        [r[0]] + rest
  }

  lemma DistinctCons(x: string, ns: seq<string>)
    requires x !in ns && Distinct(ns)
    ensures Distinct([x] + ns)
  {
    forall i, j | 0 <= i < j < |[x] + ns| ensures ([x] + ns)[i] != ([x] + ns)[j] {
      if i == 0 { assert ([x] + ns)[j] == ns[j - 1]; }
      else { assert ([x] + ns)[i] == ns[i - 1]; assert ([x] + ns)[j] == ns[j - 1]; }
    }
  }

  lemma UniqueTail(r: RepoList)
    requires UniqueNames(r) && |r| > 0
    ensures UniqueNames(r[1..])
    ensures r[0].name !in Names(r[1..])
  {
    forall a, b | 0 <= a < b < |r[1..]| ensures Names(r[1..])[a] != Names(r[1..])[b] {
      assert Names(r)[a + 1] == Names(r[1..])[a];
    }
    forall j | 0 <= j < |r[1..]| ensures Names(r[1..])[j] != r[0].name {
      assert Names(r)[j + 1] == Names(r[1..])[j];
    }
  }

  /** One step of `Remove`, spelled out for the proofs below. */
  lemma RemoveStep(r: RepoList, k: string)
    requires |r| > 0
    ensures Remove(r, k) == if r[0].name == k then Remove(r[1..], k) else [r[0]] + Remove(r[1..], k)
  {
  }

  /** Deleting a key of an object removes exactly its one binding and keeps
      the others in order. */
  lemma {:induction false} RemoveExactlyOne(r: RepoList, i: nat)
    requires UniqueNames(r)
    requires i < |r|
    ensures Remove(r, r[i].name) == r[..i] + r[i + 1..]
    decreases |r|, 1
  {
    if i == 0 {
      UniqueTail(r);
      RemoveStep(r, r[0].name);
      assert r[..0] + r[1..] == r[1..];
    } else {
      RemoveLaterOne(r, i);
    }
  }

  /** `RemoveExactlyOne` for a binding after the first. */
  lemma {:induction false} RemoveLaterOne(r: RepoList, i: nat)
    requires UniqueNames(r)
    requires 0 < i < |r|
    ensures Remove(r, r[i].name) == r[..i] + r[i + 1..]
    decreases |r|, 0
  {
    var k := r[i].name;
    UniqueTail(r);
    assert r[0].name != k by { assert Names(r)[0] != Names(r)[i]; }
    assert r[1..][i - 1] == r[i];
    RemoveExactlyOne(r[1..], i - 1);
    RemoveCons(r, k, i);
  }

  lemma {:induction false} RemoveCons(r: RepoList, k: string, i: nat)
    requires 0 < i < |r| && r[0].name != k
    requires Remove(r[1..], k) == r[1..][..i - 1] + r[1..][i..]
    ensures Remove(r, k) == r[..i] + r[i + 1..]
  {
    RemoveStep(r, k);
    DropAfterHead(r, i);
  }

  lemma DropAfterHead<T>(s: seq<T>, i: nat)
    requires 0 < i < |s|
    ensures [s[0]] + (s[1..][..i - 1] + s[1..][i..]) == s[..i] + s[i + 1..]
  {
    assert s[1..][..i - 1] == s[1..i];
    assert s[1..][i..] == s[i + 1..];
    assert s[..i] == [s[0]] + s[1..i];
  }
}
