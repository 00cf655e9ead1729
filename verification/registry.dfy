/** Rebuilding the registry (`update_cn_models`): every root is indexed and
    merged in order, earlier roots keeping their entries; the `None`
    sentinel goes first; the lower-cased name index is rebuilt from the
    result. Nothing of the previous registry survives a refresh. */
module ModelRegistry {
  import opened Wrappers
  import opened Text
  import opened Paths
  import opened OrderedMaps
  import opened Scanner
  import opened Indexer

  /** What `update_cn_models` reads for every root: the sort and filter
      settings, and the content hash (`sd_models.model_hash`) files are
      keyed with. */
  datatype Config = Config(sortBy: string, filterBy: string, hash: string -> string)

  /** `cn_models` (display key to path, `None` for the sentinel) and
      `cn_models_names` (lower-cased stem to display key). */
  datatype Registry = Registry(models: Dict<string, Option<string>>, names: map<string, string>)

  /** The roots among `extras` that are configured and exist, in order. */
  function Present(extras: seq<Option<Root>>): (r: seq<Root>)
    ensures forall root :: root in r <==> Some(root) in extras
  {
    if |extras| == 0 then []
    else
      assert forall o :: o in extras <==> o == extras[0] || o in extras[1..];
      (if extras[0].Some? then [extras[0].value] else []) + Present(extras[1..])
  }

  /** Filtering keeps the configured order: it distributes over
      concatenation, so `control_net_models_path` stays ahead of
      `controlnet_dir`. */
  lemma {:induction false} PresentConcat(a: seq<Option<Root>>, b: seq<Option<Root>>)
    ensures Present(a + b) == Present(a) + Present(b)
    decreases |a|
  {
    if |a| == 0 {
      assert a + b == b;
    } else {
      assert (a + b)[0] == a[0] && (a + b)[1..] == a[1..] + b;
      PresentConcat(a[1..], b);
    }
  }

  /** A single setting contributes its root when set and existing, and
      nothing otherwise. */
  lemma PresentSingle(o: Option<Root>)
    ensures Present([o]) == if o.Some? then [o.value] else []
  {
    assert [o][1..] == [];
  }

  /** `[cn_models_dir, cn_models_dir_old, *extra_lora_paths]`. */
  function RootOrder(primary: Root, legacy: Root, extras: seq<Option<Root>>): seq<Root>
  {
    [primary, legacy] + Present(extras)
  }

  /** `get_all_models(sort_by, filter_by, path)` for one root. */
  function RootModels(cfg: Config, root: Root): Dict<string, string>
  {
    GetAllModels(cfg.sortBy, cfg.filterBy, root, cfg.hash)
  }

  /** What `get_all_models` found in every root, in root order. */
  function FoundPerRoot(cfg: Config, roots: seq<Root>): (r: seq<Dict<string, string>>)
    ensures |r| == |roots|
    ensures forall i :: 0 <= i < |roots| ==> r[i] == RootModels(cfg, roots[i])
  {
    seq(|roots|, i requires 0 <= i < |roots| => RootModels(cfg, roots[i]))
  }

  /** `cn_models.update({**found, **cn_models})`. */
  function MergeRoot(models: Dict<string, string>, found: Dict<string, string>): Dict<string, string>
  {
    Update(models, FromPairs(found + models))
  }

  /** The loop over the roots, from the registry as it stands, given what
      each root holds. */
  function MergeLoop(models: Dict<string, string>, founds: seq<Dict<string, string>>): Dict<string, string>
    decreases |founds|
  {
    if |founds| == 0 then models
    else MergeLoop(MergeRoot(models, founds[0]), founds[1..])
  }

  /** Every root's listing has distinct keys, as a dict's has. */
  predicate AllDistinct(founds: seq<Dict<string, string>>)
  {
    forall i :: 0 <= i < |founds| ==> KeysDistinct(founds[i])
  }

  /** What the loop amounts to: every root appends the entries whose key
      is still missing, and nothing already present moves or changes. */
  function Merged(models: Dict<string, string>, founds: seq<Dict<string, string>>): (r: Dict<string, string>)
    ensures models <= r
    decreases |founds|
  {
    if |founds| == 0 then models
    else Merged(models + Fresh(founds[0], models), founds[1..])
  }

  /** Appending the fresh entries of a distinct listing keeps keys distinct. */
  lemma AppendFreshDistinct(models: Dict<string, string>, found: Dict<string, string>)
    requires KeysDistinct(models) && KeysDistinct(found)
    ensures KeysDistinct(models + Fresh(found, models))
  {
    MergeKeepsExisting(models, found);
  }

  /** The loop of `update_cn_models` is `Merged`, and its keys stay distinct. */
  lemma {:induction false} MergeLoopIsMerged(models: Dict<string, string>, founds: seq<Dict<string, string>>)
    requires KeysDistinct(models) && AllDistinct(founds)
    ensures MergeLoop(models, founds) == Merged(models, founds)
    ensures KeysDistinct(Merged(models, founds))
    decreases |founds|
  {
    if |founds| > 0 {
      MergeKeepsExisting(models, founds[0]);
      AppendFreshDistinct(models, founds[0]);
      assert forall i :: 0 <= i < |founds[1..]| ==> founds[1..][i] == founds[i + 1];
      MergeLoopIsMerged(models + Fresh(founds[0], models), founds[1..]);
    }
  }

  /** Every entry maps the key its path produces to that path. */
  predicate WellKeyed(d: Dict<string, string>, hash: string -> string)
  {
    forall e :: e in d ==> e.0 == ModelKey(e.1, hash) && Stem(e.1) != "None"
  }

  /** Every entry of `d` satisfies `ok`. */
  predicate AllEntries(d: Dict<string, string>, ok: ((string, string)) -> bool)
  {
    forall e :: e in d ==> ok(e)
  }

  /** Merging only ever takes entries from the registry and the roots. */
  lemma {:induction false} MergedKeeps(models: Dict<string, string>, founds: seq<Dict<string, string>>, ok: ((string, string)) -> bool)
    requires AllEntries(models, ok)
    requires forall i :: 0 <= i < |founds| ==> AllEntries(founds[i], ok)
    ensures AllEntries(Merged(models, founds), ok)
    decreases |founds|
  {
    if |founds| > 0 {
      var next := models + Fresh(founds[0], models);
      assert AllEntries(next, ok) by {
        forall e | e in next
          ensures ok(e)
        {
          assert e in models || e in founds[0];
        }
      }
      assert forall i :: 0 <= i < |founds[1..]| ==> founds[1..][i] == founds[i + 1];
      MergedKeeps(next, founds[1..], ok);
    }
  }

  /** Merging keeps every entry well keyed when every root's is. */
  lemma MergedWellKeyed(models: Dict<string, string>, founds: seq<Dict<string, string>>, hash: string -> string)
    requires WellKeyed(models, hash)
    requires forall i :: 0 <= i < |founds| ==> WellKeyed(founds[i], hash)
    ensures WellKeyed(Merged(models, founds), hash)
  {
    var ok := (e: (string, string)) => e.0 == ModelKey(e.1, hash) && Stem(e.1) != "None";
    forall d: Dict<string, string> | WellKeyed(d, hash)
      ensures AllEntries(d, ok)
    {
    }
    MergedKeeps(models, founds, ok);
  }

  lemma {:induction false} MergedAppend(models: Dict<string, string>, a: seq<Dict<string, string>>, b: seq<Dict<string, string>>)
    ensures Merged(models, a + b) == Merged(Merged(models, a), b)
    decreases |a|
  {
    if |a| == 0 {
      assert a + b == b;
    } else {
      assert (a + b)[0] == a[0] && (a + b)[1..] == a[1..] + b;
      MergedAppend(models + Fresh(a[0], models), a[1..], b);
    }
  }

  /** Some root lists key `k`. */
  ghost predicate SomeRootHas(founds: seq<Dict<string, string>>, k: string)
  {
    exists i :: 0 <= i < |founds| && HasKey(founds[i], k)
  }

  /** Appending the fresh entries adds exactly the keys of `found`. */
  lemma AppendFreshKeys(models: Dict<string, string>, found: Dict<string, string>, k: string)
    ensures HasKey(models + Fresh(found, models), k) <==> HasKey(models, k) || HasKey(found, k)
  {
    var fr := Fresh(found, models);
    HasKeyConcat(models, fr);
    if HasKey(fr, k) {
      var i :| 0 <= i < |fr| && fr[i].0 == k;
      assert fr[i] in fr;
      var j :| 0 <= j < |found| && found[j] == fr[i];
    }
    if HasKey(found, k) && !HasKey(models, k) {
      var j :| 0 <= j < |found| && found[j].0 == k;
      assert found[j] in found;
      var i :| 0 <= i < |fr| && fr[i] == found[j];
    }
  }

  /** The merged registry has exactly the keys of the registry it started
      from and of every root. */
  lemma {:induction false} MergedKeys(models: Dict<string, string>, founds: seq<Dict<string, string>>, k: string)
    ensures HasKey(Merged(models, founds), k) <==> HasKey(models, k) || SomeRootHas(founds, k)
    decreases |founds|
  {
    if |founds| > 0 {
      AppendFreshKeys(models, founds[0], k);
      MergedKeys(models + Fresh(founds[0], models), founds[1..], k);
      assert SomeRootHas(founds, k) <==> HasKey(founds[0], k) || SomeRootHas(founds[1..], k) by {
        if SomeRootHas(founds, k) {
          var i :| 0 <= i < |founds| && HasKey(founds[i], k);
          if i > 0 {
            assert founds[1..][i - 1] == founds[i];
          }
        }
        if SomeRootHas(founds[1..], k) {
          var i :| 0 <= i < |founds[1..]| && HasKey(founds[1..][i], k);
          assert founds[i + 1] == founds[1..][i];
        }
      }
    }
  }

  /** A key no root before `i` lists is missing before root `i` merges. */
  lemma MissingBefore(founds: seq<Dict<string, string>>, i: int, k: string)
    requires 0 <= i <= |founds|
    requires forall j :: 0 <= j < i ==> !HasKey(founds[j], k)
    ensures !HasKey(Merged([], founds[..i]), k)
  {
    MergedKeys([], founds[..i], k);
    forall j | 0 <= j < |founds[..i]|
      ensures !HasKey(founds[..i][j], k)
    {
      assert founds[..i][j] == founds[j];
    }
  }

  /** Merging root `i` after the roots before it, then the rest. */
  lemma MergedAt(founds: seq<Dict<string, string>>, i: int)
    requires 0 <= i < |founds|
    ensures var before := Merged([], founds[..i]);
      Merged([], founds) == Merged(before + Fresh(founds[i], before), founds[i + 1..])
  {
    assert founds == founds[..i] + founds[i..];
    MergedAppend([], founds[..i], founds[i..]);
    assert founds[i..][0] == founds[i] && founds[i..][1..] == founds[i + 1..];
  }

  /** An entry already present survives the rest of the merge. */
  lemma StaysMerged(models: Dict<string, string>, founds: seq<Dict<string, string>>, e: (string, string))
    requires e in models
    ensures e in Merged(models, founds)
  {
    var k :| 0 <= k < |models| && models[k] == e;
    assert Merged(models, founds)[k] == e;
  }

  /** A root's entry whose key is still missing is appended. */
  lemma FreshJoins(models: Dict<string, string>, found: Dict<string, string>, e: (string, string))
    requires e in found && !HasKey(models, e.0)
    ensures e in models + Fresh(found, models)
  {
    var fr := Fresh(found, models);
    assert e in fr;
    var k :| 0 <= k < |fr| && fr[k] == e;
    assert (models + fr)[|models| + k] == e;
  }

  /** On a key collision the earliest root wins: an entry of root `i` whose
      key no earlier root lists is in the merged registry unchanged. */
  lemma EarliestRootWins(founds: seq<Dict<string, string>>, i: int, e: (string, string))
    requires 0 <= i < |founds| && e in founds[i]
    requires forall j :: 0 <= j < i ==> !HasKey(founds[j], e.0)
    ensures e in Merged([], founds)
  {
    var before := Merged([], founds[..i]);
    MissingBefore(founds, i, e.0);
    MergedAt(founds, i);
    FreshJoins(before, founds[i], e);
    StaysMerged(before + Fresh(founds[i], before), founds[i + 1..], e);
  }

  /** With keys distinct, the earliest root decides a key's value: no other
      entry of the merged registry carries it. */
  lemma EarliestRootDecides(founds: seq<Dict<string, string>>, i: int, e: (string, string))
    requires AllDistinct(founds)
    requires 0 <= i < |founds| && e in founds[i]
    requires forall j :: 0 <= j < i ==> !HasKey(founds[j], e.0)
    ensures forall f :: f in MergeLoop([], founds) && f.0 == e.0 ==> f == e
  {
    EarliestRootWins(founds, i, e);
    MergeLoopIsMerged([], founds);
    var merged := Merged([], founds);
    var a :| 0 <= a < |merged| && merged[a] == e;
    forall f | f in merged && f.0 == e.0
      ensures f == e
    {
      var b :| 0 <= b < |merged| && merged[b] == f;
      assert a == b;
    }
  }

  /** The registry's entries as `cn_models` holds them: every path present. */
  function Lift(d: Dict<string, string>): (r: Dict<string, Option<string>>)
    ensures |r| == |d|
    ensures forall i :: 0 <= i < |d| ==> r[i] == (d[i].0, Some(d[i].1))
  {
    seq(|d|, i requires 0 <= i < |d| => (d[i].0, Some(d[i].1)))
  }

  /** `cn_models.clear(); cn_models.update({**{"None": None}, **cn_models_copy})`. */
  function WithSentinel(d: Dict<string, string>): Dict<string, Option<string>>
  {
    Update([], FromPairs([("None", None)] + Lift(d)))
  }

  /** A display key always holds a space, so it is never `None`. */
  lemma ModelKeyIsNotNone(path: string, hash: string -> string)
    ensures ModelKey(path, hash) != "None"
  {
    var k := ModelKey(path, hash);
    var n := |Stem(path)|;
    assert k[n] == ' ';
    assert forall i :: 0 <= i < |"None"| ==> "None"[i] != ' ';
  }

  /** The sentinel goes in front of the merged entries, which keep their
      order, values and keys. */
  lemma SentinelFirst(d: Dict<string, string>, hash: string -> string)
    requires KeysDistinct(d) && WellKeyed(d, hash)
    ensures WithSentinel(d) == [("None", None)] + Lift(d)
  {
    var ps := [("None", None)] + Lift(d);
    forall i | 0 <= i < |d|
      ensures d[i].0 != "None"
    {
      assert d[i] in d;
      ModelKeyIsNotNone(d[i].1, hash);
    }
    assert KeysDistinct(ps);
    FromDistinctPairs(ps);
    FromDistinctPairs(FromPairs(ps));
  }

  /** The `cn_models_names` key for a path: its stem, lower-cased. */
  function LowerStem(path: string): string
  {
    Lower(Stem(path))
  }

  /** Entry `i` of `models` carries a path that `name` maps to `n`. */
  predicate NamedAt(models: Dict<string, Option<string>>, name: string -> string, i: int, n: string)
  {
    0 <= i < |models| && models[i].1.Some? && name(models[i].1.value) == n
  }

  /** Entry `i` is the last one named `n`. */
  predicate LastNamed(models: Dict<string, Option<string>>, name: string -> string, i: int, n: string)
  {
    NamedAt(models, name, i, n) && forall j :: i < j < |models| ==> !NamedAt(models, name, j, n)
  }

  /** A loop `names[name(path)] = key` over the entries with a path, in
      order, into an empty map: later entries overwrite earlier ones. */
  function IndexBy(models: Dict<string, Option<string>>, name: string -> string): map<string, string>
    decreases |models|
  {
    if |models| == 0 then map[]
    else
      var last := |models| - 1;
      var e := models[last];
      var m := IndexBy(models[..last], name);
      if e.1.None? then m else m[name(e.1.value) := e.0]
  }

  /** The loop that rebuilds `cn_models_names`, keyed by lower-cased stem. */
  function NameIndex(models: Dict<string, Option<string>>): map<string, string>
  {
    IndexBy(models, LowerStem)
  }

  lemma NamedInPrefix(models: Dict<string, Option<string>>, name: string -> string, last: int)
    requires 0 <= last <= |models|
    ensures forall i, n :: 0 <= i < last ==> (NamedAt(models[..last], name, i, n) <==> NamedAt(models, name, i, n))
  {
  }

  /** Exactly the names of entries with a path are indexed. */
  lemma {:induction false} IndexByDomain(models: Dict<string, Option<string>>, name: string -> string, n: string)
    ensures n in IndexBy(models, name) <==> exists i :: NamedAt(models, name, i, n)
    decreases |models|
  {
    if |models| > 0 {
      var last := |models| - 1;
      var e := models[last];
      NamedInPrefix(models, name, last);
      IndexByDomain(models[..last], name, n);
      if e.1.Some? && name(e.1.value) == n {
        assert NamedAt(models, name, last, n);
      } else {
        assert n in IndexBy(models, name) <==> n in IndexBy(models[..last], name);
        forall i | NamedAt(models, name, i, n)
          ensures NamedAt(models[..last], name, i, n)
        {
          assert i != last;
        }
      }
    }
  }

  /** The last entry named `n` wins. */
  lemma {:induction false} IndexByLastWins(models: Dict<string, Option<string>>, name: string -> string, n: string)
    requires n in IndexBy(models, name)
    ensures exists i :: LastNamed(models, name, i, n) && models[i].0 == IndexBy(models, name)[n]
    decreases |models|
  {
    assert |models| > 0;
    var last := |models| - 1;
    var init := models[..last];
    var e := models[last];
    var m := IndexBy(init, name);
    if e.1.Some? && name(e.1.value) == n {
      assert IndexBy(models, name)[n] == e.0;
      assert LastNamed(models, name, last, n);
    } else {
      assert n in m && IndexBy(models, name)[n] == m[n];
      IndexByLastWins(init, name, n);
      var i :| LastNamed(init, name, i, n) && init[i].0 == m[n];
      NamedInPrefix(models, name, last);
      assert NamedAt(models, name, i, n);
      assert !NamedAt(models, name, last, n);
      assert LastNamed(models, name, i, n);
    }
  }

  /** The registry built from what the roots hold, in root order: the
      merge, the sentinel, the name index. */
  function Rebuild(founds: seq<Dict<string, string>>): Registry
  {
    var merged := MergeLoop([], founds);
    var models := WithSentinel(merged);
    Registry(models, NameIndex(models))
  }

  /** `update_cn_models()`: the registry rebuilt from the roots alone;
      nothing of the previous registry survives. */
  function Refresh(cfg: Config, primary: Root, legacy: Root, extras: seq<Option<Root>>): Registry
  {
    Rebuild(FoundPerRoot(cfg, RootOrder(primary, legacy, extras)))
  }

  /** Every root's listing has distinct keys, each the key its path
      produces. */
  predicate AllWellKeyed(founds: seq<Dict<string, string>>, hash: string -> string)
  {
    forall i :: 0 <= i < |founds| ==> KeysDistinct(founds[i]) && WellKeyed(founds[i], hash)
  }

  /** What `get_all_models` returns for the roots meets `AllWellKeyed`. */
  lemma FoundsWellFormed(cfg: Config, roots: seq<Root>)
    ensures AllWellKeyed(FoundPerRoot(cfg, roots), cfg.hash)
  {
    var founds := FoundPerRoot(cfg, roots);
    forall i | 0 <= i < |founds|
      ensures KeysDistinct(founds[i]) && WellKeyed(founds[i], cfg.hash)
    {
      assert founds[i] == GetAllModels(cfg.sortBy, cfg.filterBy, roots[i], cfg.hash);
    }
  }

  /** The rebuilt `cn_models` is the sentinel followed by the merged
      listing, whose keys are distinct and well formed. */
  lemma RebuildModels(founds: seq<Dict<string, string>>, hash: string -> string)
    requires AllWellKeyed(founds, hash)
    ensures var merged := MergeLoop([], founds);
      && Rebuild(founds).models == [("None", None)] + Lift(merged)
      && KeysDistinct(merged) && WellKeyed(merged, hash)
  {
    assert AllDistinct(founds);
    MergeLoopIsMerged([], founds);
    MergedWellKeyed([], founds, hash);
    SentinelFirst(MergeLoop([], founds), hash);
  }

  /** The rebuilt registry: the sentinel first and the only entry without a
      path, then the merged entries in order, each under the key its path
      produces. */
  lemma RebuildShape(founds: seq<Dict<string, string>>, hash: string -> string)
    requires AllWellKeyed(founds, hash)
    ensures var models := Rebuild(founds).models;
      && |models| > 0 && models[0] == ("None", None)
      && KeysDistinct(models)
      && (forall i :: 0 < i < |models| ==>
            (models[i].1.Some?
             && models[i].0 == ModelKey(models[i].1.value, hash)
             && Stem(models[i].1.value) != "None"))
      && models[1..] == Lift(Merged([], founds))
  {
    var merged := MergeLoop([], founds);
    var models := Rebuild(founds).models;
    RebuildModels(founds, hash);
    assert AllDistinct(founds);
    MergeLoopIsMerged([], founds);
    forall i | 0 <= i < |merged|
      ensures merged[i].0 == ModelKey(merged[i].1, hash) && Stem(merged[i].1) != "None"
    {
      assert merged[i] in merged;
    }
    assert models[1..] == Lift(merged);
  }

  /** Every name in `cn_models_names` is the lower-cased stem of an entry
      with a path, and maps to the key of the last such entry, never to the
      sentinel; every such stem is a name. */
  lemma RebuildNames(founds: seq<Dict<string, string>>, hash: string -> string, n: string)
    requires AllWellKeyed(founds, hash)
    ensures var r := Rebuild(founds);
      n in r.names <==> exists i :: NamedAt(r.models, LowerStem, i, n)
    ensures var r := Rebuild(founds);
      n in r.names ==> exists i :: 0 < i < |r.models| && LastNamed(r.models, LowerStem, i, n) && r.models[i].0 == r.names[n]
  {
    var r := Rebuild(founds);
    RebuildModels(founds, hash);
    assert r.models[0].1 == None;
    IndexByDomain(r.models, LowerStem, n);
    if n in r.names {
      IndexByLastWins(r.models, LowerStem, n);
    }
  }

  /** The roots `update_cn_models()` lists, in merge order: the primary
      directory, the legacy one, then the present extra roots in their
      configured order. */
  lemma RefreshRoots(cfg: Config, primary: Root, legacy: Root, extras: seq<Option<Root>>)
    ensures var founds := FoundPerRoot(cfg, RootOrder(primary, legacy, extras));
      && |founds| == 2 + |Present(extras)|
      && founds[0] == RootModels(cfg, primary) && founds[1] == RootModels(cfg, legacy)
      && (forall i :: 0 <= i < |Present(extras)| ==> founds[i + 2] == RootModels(cfg, Present(extras)[i]))
  {
    var roots := RootOrder(primary, legacy, extras);
    assert roots[0] == primary && roots[1] == legacy;
    assert forall i :: 0 <= i < |Present(extras)| ==> roots[i + 2] == Present(extras)[i];
  }

  /** `update_cn_models()` from end to end: the registry is the sentinel
      followed by the merged listings of the roots, with distinct keys of
      the form `stem [hash]`. */
  lemma RefreshShape(cfg: Config, primary: Root, legacy: Root, extras: seq<Option<Root>>)
    ensures var models := Refresh(cfg, primary, legacy, extras).models;
      && |models| > 0 && models[0] == ("None", None)
      && KeysDistinct(models)
      && (forall i :: 0 < i < |models| ==>
            (models[i].1.Some?
             && models[i].0 == ModelKey(models[i].1.value, cfg.hash)
             && Stem(models[i].1.value) != "None"))
      && models[1..] == Lift(Merged([], FoundPerRoot(cfg, RootOrder(primary, legacy, extras))))
  {
    var founds := FoundPerRoot(cfg, RootOrder(primary, legacy, extras));
    FoundsWellFormed(cfg, RootOrder(primary, legacy, extras));
    assert Refresh(cfg, primary, legacy, extras) == Rebuild(founds);
    RebuildShape(founds, cfg.hash);
  }

  /** The name index `update_cn_models()` leaves: each name is the
      lower-cased stem of an entry with a path and maps to the key of the
      last such entry. */
  lemma RefreshNames(cfg: Config, primary: Root, legacy: Root, extras: seq<Option<Root>>, n: string)
    ensures var r := Refresh(cfg, primary, legacy, extras);
      n in r.names <==> exists i :: NamedAt(r.models, LowerStem, i, n)
    ensures var r := Refresh(cfg, primary, legacy, extras);
      n in r.names ==> exists i :: 0 < i < |r.models| && LastNamed(r.models, LowerStem, i, n) && r.models[i].0 == r.names[n]
  {
    var founds := FoundPerRoot(cfg, RootOrder(primary, legacy, extras));
    FoundsWellFormed(cfg, RootOrder(primary, legacy, extras));
    assert Refresh(cfg, primary, legacy, extras) == Rebuild(founds);
    RebuildNames(founds, cfg.hash, n);
  }
}
