/** The preprocessor display table (`module_names`): every preprocessor
    label mapped to the name the interface shows for it, `none` first and
    the rest ordered by display name. */
module ModuleNames {
  import opened Wrappers
  import opened Text
  import opened OrderedMaps
  import opened Sorting

  /** The keys of `cn_preprocessor_modules`, in declaration order. */
  const PreprocessorLabels: seq<string> := [
    "none", "canny", "depth", "depth_leres", "hed", "hed_safe", "mlsd",
    "normal_map", "openpose", "openpose_hand", "openpose_face",
    "openpose_faceonly", "openpose_full", "clip_vision", "color", "pidinet",
    "pidinet_safe", "pidinet_sketch", "pidinet_scribble", "scribble_xdog",
    "scribble_hed", "segmentation", "threshold", "depth_zoe", "normal_bae",
    "oneformer_coco", "oneformer_ade20k", "lineart", "lineart_coarse",
    "lineart_anime", "shuffle", "tile_gaussian", "inpaint"
  ]

  /** `update_names`: the labels shown under another name. */
  const DisplayRenames: Dict<string, string> := [
    ("color", "t2ia_color_grid"),
    ("clip_vision", "t2ia_style_clipvision"),
    ("pidinet_sketch", "t2ia_sketch_pidi"),
    ("depth", "depth_midas"),
    ("normal_map", "normal_midas"),
    ("hed", "softedge_hed"),
    ("hed_safe", "softedge_hedsafe"),
    ("pidinet", "softedge_pidinet"),
    ("pidinet_safe", "softedge_pidisafe"),
    ("segmentation", "seg_ufade20k"),
    ("oneformer_coco", "seg_ofcoco"),
    ("oneformer_ade20k", "seg_ofade20k"),
    ("pidinet_scribble", "scribble_pidinet"),
    ("inpaint", "inpaint_global_harmonious")
  ]

  /** Every label mapped to itself. */
  function Identity(labels: seq<string>): (r: Dict<string, string>)
    ensures forall k :: HasKey(r, k) <==> k in labels
    ensures forall e :: e in r ==> e.0 == e.1
  {
    var r := seq(|labels|, i requires 0 <= i < |labels| => (labels[i], labels[i]));
    assert forall k :: k in labels ==> HasKey(r, k) by {
      forall k | k in labels
        ensures HasKey(r, k)
      {
        var i :| 0 <= i < |labels| && labels[i] == k;
        assert r[i].0 == k;
      }
    }
    r
  }

  /** `module_names` before `none` is dropped: the identity table with
      `update_names` applied. */
  function Renamed(labels: seq<string>, renames: Dict<string, string>): Dict<string, string>
  {
    Update(FromPairs(Identity(labels)), renames)
  }

  /** Python's `key=lambda x: x[1]`: entries compared by display name. */
  function ByValue(a: (string, string), b: (string, string)): bool
  {
    StrLe(a.1, b.1)
  }

  /** The table, or `None` where `del module_names['none']` raises because
      no label `none` is left to delete. */
  function DisplayTable(labels: seq<string>, renames: Dict<string, string>): (r: Option<Dict<string, string>>)
    ensures r.Some? <==> "none" in labels || HasKey(renames, "none")
  {
    var named := Renamed(labels, renames);
    if HasKey(named, "none") then
      Some(FromPairs([("none", "none")] + Sort(Remove(named, "none"), ByValue)))
    else None
  }

  lemma ByValueIsPreorder()
    ensures Total(ByValue) && Transitive(ByValue)
  {
    forall a: (string, string), b: (string, string)
      ensures ByValue(a, b) || ByValue(b, a)
    {
      StrLeTotal(a.1, b.1);
    }
    forall a: (string, string), b: (string, string), c: (string, string) | ByValue(a, b) && ByValue(b, c)
      ensures ByValue(a, c)
    {
      StrLeTransitive(a.1, b.1, c.1);
    }
  }

  /** Reordering entries keeps the set of keys. */
  lemma KeysOfPermutation(a: Dict<string, string>, b: Dict<string, string>)
    requires multiset(a) == multiset(b)
    ensures forall k :: HasKey(a, k) <==> HasKey(b, k)
  {
    forall k | HasKey(a, k)
      ensures HasKey(b, k)
    {
      var i :| 0 <= i < |a| && a[i].0 == k;
      assert a[i] in multiset(b);
      var j :| 0 <= j < |b| && b[j] == a[i];
    }
    forall k | HasKey(b, k)
      ensures HasKey(a, k)
    {
      var i :| 0 <= i < |b| && b[i].0 == k;
      assert b[i] in multiset(a);
      var j :| 0 <= j < |a| && a[j] == b[i];
    }
  }

  lemma {:induction false} InsertKeysDistinct(x: (string, string), s: Dict<string, string>, le: ((string, string), (string, string)) -> bool)
    requires KeysDistinct(s) && !HasKey(s, x.0)
    ensures KeysDistinct(Insert(x, s, le))
    decreases |s|
  {
    if |s| > 0 && !le(x, s[0]) {
      var tail := s[1..];
      assert !HasKey(tail, x.0) by {
        forall i | 0 <= i < |tail|
          ensures tail[i].0 != x.0
        {
          assert tail[i] == s[i + 1];
        }
      }
      InsertKeysDistinct(x, tail, le);
      var rest := Insert(x, tail, le);
      KeysOfPermutation(rest, tail + [x]);
      HasKeyConcat(tail, [x]);
      assert !HasKey(tail, s[0].0) by {
        forall i | 0 <= i < |tail|
          ensures tail[i].0 != s[0].0
        {
          assert tail[i] == s[i + 1];
        }
      }
      assert !HasKey([x], s[0].0) by {
        assert [x][0].0 != s[0].0;
      }
      assert Insert(x, s, le) == [s[0]] + rest;
    }
  }

  /** Sorting a dict's entries keeps its keys distinct. */
  lemma {:induction false} SortKeysDistinct(s: Dict<string, string>, le: ((string, string), (string, string)) -> bool)
    requires KeysDistinct(s)
    ensures KeysDistinct(Sort(s, le))
    decreases |s|
  {
    if |s| > 0 {
      var tail := s[1..];
      SortKeysDistinct(tail, le);
      var sorted := Sort(tail, le);
      KeysOfPermutation(sorted, tail);
      assert !HasKey(tail, s[0].0) by {
        forall i | 0 <= i < |tail|
          ensures tail[i].0 != s[0].0
        {
          assert tail[i] == s[i + 1];
        }
      }
      InsertKeysDistinct(s[0], sorted, le);
    }
  }

  /** A dict with distinct keys holds `(k, v)` exactly when `k` maps to `v`. */
  lemma EntryIsLookup(d: Dict<string, string>, k: string, v: string)
    requires KeysDistinct(d)
    ensures (k, v) in d <==> Get(d, k) == Some(v)
  {
    if (k, v) in d {
      var i :| 0 <= i < |d| && d[i] == (k, v);
    }
  }

  /** The entries after `none`: the renamed table without `none`, sorted
      by display name. */
  function SortedRest(labels: seq<string>, renames: Dict<string, string>): Dict<string, string>
  {
    Sort(Remove(Renamed(labels, renames), "none"), ByValue)
  }

  /** Sorted entries without `none`, after `('none', 'none')`, have
      distinct keys, so building a dict from them keeps them all. */
  lemma NoneThenSorted(rest: Dict<string, string>)
    requires KeysDistinct(rest)
    requires forall e :: e in rest ==> e.0 != "none"
    ensures var ps := [("none", "none")] + Sort(rest, ByValue);
      FromPairs(ps) == ps && KeysDistinct(ps)
  {
    var sorted := Sort(rest, ByValue);
    SortKeysDistinct(rest, ByValue);
    var ps := [("none", "none")] + sorted;
    assert KeysDistinct(ps) by {
      forall j | 0 <= j < |sorted|
        ensures sorted[j].0 != "none"
      {
        assert sorted[j] in multiset(rest);
      }
    }
    FromDistinctPairs(ps);
  }

  /** Building the ordered dict from `[('none', 'none')] + sorted(...)`
      loses nothing. */
  lemma DisplayTableIs(labels: seq<string>, renames: Dict<string, string>)
    requires DisplayTable(labels, renames).Some?
    ensures DisplayTable(labels, renames).value == [("none", "none")] + SortedRest(labels, renames)
    ensures KeysDistinct(DisplayTable(labels, renames).value)
  {
    NoneThenSorted(Remove(Renamed(labels, renames), "none"));
  }

  /** The table starts with `('none', 'none')`; the remaining entries are
      those of the renamed table without `none`, in a stable order sorted
      by display name, so no other entry is keyed `none`. */
  lemma DisplayTableShape(labels: seq<string>, renames: Dict<string, string>)
    requires DisplayTable(labels, renames).Some?
    ensures var t := DisplayTable(labels, renames).value;
      && |t| > 0 && t[0] == ("none", "none")
      && KeysDistinct(t)
      && Sorted(t[1..], ByValue)
      && multiset(t[1..]) == multiset(Remove(Renamed(labels, renames), "none"))
      && (forall e :: e in t[1..] ==> Peers(e, t[1..], ByValue) == Peers(e, Remove(Renamed(labels, renames), "none"), ByValue))
  {
    var rest := Remove(Renamed(labels, renames), "none");
    var sorted := SortedRest(labels, renames);
    DisplayTableIs(labels, renames);
    var t := DisplayTable(labels, renames).value;
    assert t[1..] == sorted;
    ByValueIsPreorder();
    SortSorted(rest, ByValue);
    forall e | e in sorted
      ensures Peers(e, sorted, ByValue) == Peers(e, rest, ByValue)
    {
      SortStable(e, rest, ByValue);
    }
  }

  /** Every label other than `none`, and every renamed one, is listed with
      the name `update_names` gives it (its last assignment there) or else
      with itself; nothing else is listed. */
  lemma DisplayTableEntries(labels: seq<string>, renames: Dict<string, string>, k: string, v: string)
    requires DisplayTable(labels, renames).Some? && k != "none"
    ensures (k, v) in DisplayTable(labels, renames).value <==>
      if HasKey(renames, k) then Latest(renames, k) == Some(v) else k in labels && v == k
  {
    var t := DisplayTable(labels, renames).value;
    var base := FromPairs(Identity(labels));
    var named := Renamed(labels, renames);
    var rest := Remove(named, "none");
    DisplayTableShape(labels, renames);
    assert (k, v) in t <==> (k, v) in t[1..] by {
      assert t == [t[0]] + t[1..];
    }
    assert (k, v) in t[1..] <==> (k, v) in rest by {
      assert (k, v) in t[1..] <==> (k, v) in multiset(t[1..]);
    }
    EntryIsLookup(named, k, v);
    GetUpdate(base, renames, k);
    GetUpdate([], Identity(labels), k);
    var l := Latest(Identity(labels), k);
    if l.Some? {
      assert (k, l.value) in Identity(labels);
    }
  }

  /** The table the module builds: `none` is a preprocessor label, so the
      deletion succeeds and `('none', 'none')` leads the table. */
  lemma ModuleNamesBuilt()
    ensures var t := DisplayTable(PreprocessorLabels, DisplayRenames);
      t.Some? && |t.value| > 0 && t.value[0] == ("none", "none")
  {
    var labels := PreprocessorLabels;
    assert labels[0] == "none";
    DisplayTableIs(labels, DisplayRenames);
  }
}
