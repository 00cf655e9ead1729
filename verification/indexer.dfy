/** Listing the models under one root (`get_all_models`): traverse, filter
    by name, sort by the configured policy, and key every file by its stem
    and content hash. */
module Indexer {
  import opened Wrappers
  import opened Seqs
  import opened Text
  import opened Paths
  import opened OrderedMaps
  import opened Sorting
  import opened Scanner

  /** The sort policies `get_all_models` recognises; any other setting
      leaves the traversal order alone. */
  datatype SortPolicy = ByName | ByDate | ByPathName | Unsorted

  function PolicyOf(sortBy: string): SortPolicy
  {
    if sortBy == "name" then ByName
    else if sortBy == "date" then ByDate
    else if sortBy == "path name" then ByPathName
    else Unsorted
  }

  /** Sort key `os.path.basename(path)`, extension included. */
  predicate NameLe(a: FileInfo, b: FileInfo)
  {
    StrLe(Basename(a.path), Basename(b.path))
  }

  /** Sort key `-st_mtime`: the newest file first. */
  predicate DateLe(a: FileInfo, b: FileInfo)
  {
    b.mtime <= a.mtime
  }

  /** Sort key: the whole path. */
  predicate PathLe(a: FileInfo, b: FileInfo)
  {
    StrLe(a.path, b.path)
  }

  /** The order a sorting policy uses. */
  function OrderOf(p: SortPolicy): (FileInfo, FileInfo) -> bool
    requires p != Unsorted
  {
    if p == ByName then NameLe
    else if p == ByDate then DateLe
    else PathLe
  }

  lemma OrdersArePreorders(p: SortPolicy)
    requires p != Unsorted
    ensures Total(OrderOf(p)) && Transitive(OrderOf(p))
  {
    forall a: FileInfo, b: FileInfo
      ensures NameLe(a, b) || NameLe(b, a)
      ensures PathLe(a, b) || PathLe(b, a)
    {
      StrLeTotal(Basename(a.path), Basename(b.path));
      StrLeTotal(a.path, b.path);
    }
    forall a: FileInfo, b: FileInfo, c: FileInfo | NameLe(a, b) && NameLe(b, c)
      ensures NameLe(a, c)
    {
      StrLeTransitive(Basename(a.path), Basename(b.path), Basename(c.path));
    }
    forall a: FileInfo, b: FileInfo, c: FileInfo | PathLe(a, b) && PathLe(b, c)
      ensures PathLe(a, c)
    {
      StrLeTransitive(a.path, b.path, c.path);
    }
  }

  /** The sort step: `sorted(fileinfos, key=...)` for the three policies. */
  function SortFiles(p: SortPolicy, infos: seq<FileInfo>): (r: seq<FileInfo>)
    ensures multiset(r) == multiset(infos)
    ensures p == Unsorted ==> r == infos
  {
    if p == Unsorted then infos else Sort(infos, OrderOf(p))
  }

  /** Each policy orders by its key, keeps files with equal keys in their
      traversal order, and only permutes. */
  lemma SortFilesOrders(p: SortPolicy, infos: seq<FileInfo>)
    ensures var r := SortFiles(p, infos);
      && multiset(r) == multiset(infos)
      && (p == ByName ==> forall i, j :: 0 <= i < j < |r| ==> StrLe(Basename(r[i].path), Basename(r[j].path)))
      && (p == ByDate ==> forall i, j :: 0 <= i < j < |r| ==> r[i].mtime >= r[j].mtime)
      && (p == ByPathName ==> forall i, j :: 0 <= i < j < |r| ==> StrLe(r[i].path, r[j].path))
      && (p != Unsorted ==> forall x :: Peers(x, r, OrderOf(p)) == Peers(x, infos, OrderOf(p)))
      && (p == Unsorted ==> r == infos)
  {
    if p != Unsorted {
      OrdersArePreorders(p);
      SortSorted(infos, OrderOf(p));
      forall x
        ensures Peers(x, SortFiles(p, infos), OrderOf(p)) == Peers(x, infos, OrderOf(p))
      {
        SortStable(x, infos, OrderOf(p));
      }
    }
  }

  /** The filter `get_all_models` applies: the spaces-stripped filter, when
      not empty, must occur in the lower-cased base name, case-insensitively. */
  predicate PassesFilter(x: FileInfo, filterBy: string)
  {
    var f := StripSpaces(filterBy);
    |f| == 0 || Contains(Lower(Basename(x.path)), Lower(f))
  }

  /** Keeps, in order, the files whose lower-cased base name contains `needle`. */
  function KeepMatching(infos: seq<FileInfo>, needle: string): (r: seq<FileInfo>)
    ensures forall x :: x in r <==> x in infos && Contains(Lower(Basename(x.path)), needle)
  {
    if |infos| == 0 then []
    else if Contains(Lower(Basename(infos[0].path)), needle) then [infos[0]] + KeepMatching(infos[1..], needle)
    else KeepMatching(infos[1..], needle)
  }

  /** Filtering keeps the relative order: it distributes over concatenation. */
  lemma {:induction false} KeepMatchingConcat(a: seq<FileInfo>, b: seq<FileInfo>, needle: string)
    ensures KeepMatching(a + b, needle) == KeepMatching(a, needle) + KeepMatching(b, needle)
    decreases |a|
  {
    if |a| == 0 {
      assert a + b == b;
    } else {
      assert (a + b)[0] == a[0] && (a + b)[1..] == a[1..] + b;
      KeepMatchingConcat(a[1..], b, needle);
    }
  }

  /** The filter step of `get_all_models`. */
  function ApplyFilter(infos: seq<FileInfo>, filterBy: string): (r: seq<FileInfo>)
    ensures AllSpaces(filterBy) ==> r == infos
    ensures forall x :: x in r <==> x in infos && PassesFilter(x, filterBy)
  {
    var f := StripSpaces(filterBy);
    if |f| != 0 then KeepMatching(infos, Lower(f)) else infos
  }

  /** `name + f" [{model_hash(filename)}]"`. */
  function ModelKey(path: string, hash: string -> string): string
  {
    Stem(path) + " [" + hash(path) + "]"
  }

  /** The assignments `res[key] = filename` the loop makes, in order; files
      whose stem is `None` are skipped. */
  function KeyedPaths(infos: seq<FileInfo>, hash: string -> string): (r: Dict<string, string>)
    ensures forall e :: e in r ==> e.0 == ModelKey(e.1, hash) && Stem(e.1) != "None"
  {
    if |infos| == 0 then []
    else
      var rest := KeyedPaths(infos[1..], hash);
      var path := infos[0].path;
      if Stem(path) != "None" then
        var head := (ModelKey(path, hash), path);
        assert forall e :: e in [head] + rest ==> e == head || e in rest;
        [head] + rest
      else rest
  }

  /** Every assignment is for one of the files. */
  lemma {:induction false} KeyedPathsFrom(infos: seq<FileInfo>, hash: string -> string)
    ensures forall e :: e in KeyedPaths(infos, hash) ==> exists x :: x in infos && x.path == e.1
    decreases |infos|
  {
    if |infos| > 0 {
      var tail := infos[1..];
      var rest := KeyedPaths(tail, hash);
      KeyedPathsFrom(tail, hash);
      forall e | e in KeyedPaths(infos, hash)
        ensures exists x :: x in infos && x.path == e.1
      {
        if e in rest {
          var x :| x in tail && x.path == e.1;
          assert x == infos[1 + IndexIn(x, tail)];
        } else {
          assert infos[0].path == e.1;
        }
      }
    }
  }

  /** Every file not named `None` gets its assignment. */
  lemma {:induction false} KeyedPathsHas(infos: seq<FileInfo>, hash: string -> string)
    ensures forall x :: x in infos && Stem(x.path) != "None" ==> (ModelKey(x.path, hash), x.path) in KeyedPaths(infos, hash)
    decreases |infos|
  {
    if |infos| > 0 {
      var tail := infos[1..];
      var rest := KeyedPaths(tail, hash);
      KeyedPathsHas(tail, hash);
      assert rest <= KeyedPaths(infos, hash) || rest == KeyedPaths(infos, hash)[1..];
      forall x | x in infos && Stem(x.path) != "None"
        ensures (ModelKey(x.path, hash), x.path) in KeyedPaths(infos, hash)
      {
        if x != infos[0] {
          assert x in tail;
        }
      }
    }
  }

  /** The assignments for two runs of files are those of the first run, then
      those of the second: the loop keeps the order of the files. */
  lemma {:induction false} KeyedPathsConcat(a: seq<FileInfo>, b: seq<FileInfo>, hash: string -> string)
    ensures KeyedPaths(a + b, hash) == KeyedPaths(a, hash) + KeyedPaths(b, hash)
    decreases |a|
  {
    if |a| == 0 {
      assert a + b == b;
    } else {
      assert (a + b)[0] == a[0] && (a + b)[1..] == a[1..] + b;
      KeyedPathsConcat(a[1..], b, hash);
      var head := [(ModelKey(a[0].path, hash), a[0].path)];
      ConcatAssoc(head, KeyedPaths(a[1..], hash), KeyedPaths(b, hash));
    }
  }

  /** The listing follows the sorted files: keys come in the order of their
      first file, each holds the path of its last file, and without repeated
      keys the listing is exactly the assignments in file order. */
  lemma GetAllModelsOrder(sortBy: string, filterBy: string, root: Root, hash: string -> string)
    ensures var ordered := SortFiles(PolicyOf(sortBy), ApplyFilter(Traverse(root.path, root.entries, []), filterBy));
      var ps := KeyedPaths(ordered, hash);
      var r := GetAllModels(sortBy, filterBy, root, hash);
      && InFirstOrder(r, ps)
      && (forall i :: 0 <= i < |r| ==> Latest(ps, r[i].0) == Some(r[i].1))
      && (KeysDistinct(ps) ==> r == ps)
  {
    var ordered := SortFiles(PolicyOf(sortBy), ApplyFilter(Traverse(root.path, root.entries, []), filterBy));
    var ps := KeyedPaths(ordered, hash);
    assert GetAllModels(sortBy, filterBy, root, hash) == FromPairs(ps);
    FromPairsOrder(ps);
    FromPairsValues(ps);
    if KeysDistinct(ps) {
      FromDistinctPairs(ps);
    }
  }

  /** The position of an element in a sequence holding it. */
  function IndexIn<T(==)>(x: T, s: seq<T>): (i: nat)
    requires x in s
    ensures i < |s| && s[i] == x
  {
    if s[0] == x then 0 else 1 + IndexIn(x, s[1..])
  }

  /** `get_all_models(sort_by, filter_by, path)`. */
  function GetAllModels(sortBy: string, filterBy: string, root: Root, hash: string -> string): (r: Dict<string, string>)
    ensures KeysDistinct(r)
    ensures forall e :: e in r ==> e.0 == ModelKey(e.1, hash) && Stem(e.1) != "None"
  {
    var infos := Traverse(root.path, root.entries, []);
    var kept := ApplyFilter(infos, filterBy);
    var ordered := SortFiles(PolicyOf(sortBy), kept);
    FromPairs(KeyedPaths(ordered, hash))
  }

  /** A file the root lists: found by the walk, passing the filter, and not
      named `None`. */
  ghost predicate Listed(root: Root, filterBy: string, x: FileInfo)
  {
    x in Walk(root.path, root.entries) && PassesFilter(x, filterBy) && Stem(x.path) != "None"
  }

  /** The files that reach key generation are exactly the listed-or-`None`
      ones: walked and passing the filter. */
  lemma OrderedFiles(sortBy: string, filterBy: string, root: Root)
    requires WellFormed(root.entries)
    ensures var ordered := SortFiles(PolicyOf(sortBy), ApplyFilter(Traverse(root.path, root.entries, []), filterBy));
      forall x :: x in ordered <==> x in Walk(root.path, root.entries) && PassesFilter(x, filterBy)
  {
    var infos := Traverse(root.path, root.entries, []);
    TraverseIsWalk(root.path, root.entries, []);
    assert infos == Walk(root.path, root.entries);
    var kept := ApplyFilter(infos, filterBy);
    var ordered := SortFiles(PolicyOf(sortBy), kept);
    forall x
      ensures x in ordered <==> x in kept
    {
      assert x in ordered <==> x in multiset(ordered);
      assert x in kept <==> x in multiset(kept);
    }
  }

  /** Every listed file has its key in the result, and every entry maps its
      key to a listed file. */
  lemma GetAllModelsLists(sortBy: string, filterBy: string, root: Root, hash: string -> string)
    requires WellFormed(root.entries)
    ensures var r := GetAllModels(sortBy, filterBy, root, hash);
      && (forall x :: Listed(root, filterBy, x) ==> HasKey(r, ModelKey(x.path, hash)))
      && (forall e :: e in r ==> exists x :: Listed(root, filterBy, x) && x.path == e.1)
  {
    var ordered := SortFiles(PolicyOf(sortBy), ApplyFilter(Traverse(root.path, root.entries, []), filterBy));
    OrderedFiles(sortBy, filterBy, root);
    var pairs := KeyedPaths(ordered, hash);
    KeyedPathsFrom(ordered, hash);
    KeyedPathsHas(ordered, hash);
    var r := FromPairs(pairs);
    assert r == GetAllModels(sortBy, filterBy, root, hash);
    forall x | Listed(root, filterBy, x)
      ensures HasKey(r, ModelKey(x.path, hash))
    {
      var e := (ModelKey(x.path, hash), x.path);
      assert e in pairs;
      var i :| 0 <= i < |pairs| && pairs[i] == e;
      assert HasKey(pairs, e.0);
    }
    forall e | e in r
      ensures exists x :: Listed(root, filterBy, x) && x.path == e.1
    {
      assert e in pairs;
      var x :| x in ordered && x.path == e.1;
      assert Listed(root, filterBy, x);
    }
  }
}
