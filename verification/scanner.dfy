/** Recursive discovery of model files under one root directory
    (`traverse_all_files`). The filesystem is a finite tree of entries. */
module Scanner {
  import opened Paths
  import opened Seqs

  /** `CN_MODEL_EXTS`: the extensions a model file may carry, matched
      case-sensitively. */
  const ModelExts: seq<string> := [".pt", ".pth", ".ckpt", ".safetensors"]

  /** A directory entry as `os.scandir` lists it, with the modification
      time its `stat()` reports. A directory carries its own listing, in
      enumeration order. */
  datatype Entry =
    | File(name: string, mtime: int)
    | Dir(name: string, mtime: int, children: seq<Entry>)

  /** A root directory to scan: its path and its listing. */
  datatype Root = Root(path: string, entries: seq<Entry>)

  /** One element of the traversal's result: the joined path and the
      entry's modification time. */
  datatype FileInfo = FileInfo(path: string, mtime: int)

  predicate IsModelName(name: string)
  {
    Ext(name) in ModelExts
  }

  /** Every name in the tree is one `os.scandir` can produce. */
  ghost predicate WellFormed(es: seq<Entry>)
    decreases es
  {
    forall i :: 0 <= i < |es| ==>
      ValidName(es[i].name) && (es[i].Dir? ==> WellFormed(es[i].children))
  }

  /** `traverse_all_files(dir, acc)`: for each entry in order, an entry whose
      joined path has a model extension is appended to `acc` (directory or
      not); otherwise a directory is walked, depth first; anything else is
      skipped. */
  function Traverse(dir: string, entries: seq<Entry>, acc: seq<FileInfo>): seq<FileInfo>
    decreases entries
  {
    if |entries| == 0 then acc
    else
      var e := entries[0];
      var path := Join(dir, e.name);
      var acc' :=
        if Ext(path) in ModelExts then acc + [FileInfo(path, e.mtime)]
        else if e.Dir? then Traverse(path, e.children, acc)
        else acc;
      Traverse(dir, entries[1..], acc')
  }

  /** What a listing contributes to the traversal, defined entry by entry. */
  function Walk(dir: string, entries: seq<Entry>): seq<FileInfo>
    decreases entries
  {
    if |entries| == 0 then [] else WalkEntry(dir, entries[0]) + Walk(dir, entries[1..])
  }

  /** What one entry contributes: itself when its name has a model
      extension, otherwise its directory's contents. */
  function WalkEntry(dir: string, e: Entry): seq<FileInfo>
    decreases e
  {
    var path := Join(dir, e.name);
    if IsModelName(e.name) then [FileInfo(path, e.mtime)]
    else if e.Dir? then Walk(path, e.children)
    else []
  }

  /** `x` is reached from the listing: it is an entry with a model name, or
      lies below a directory without one. */
  ghost predicate Reached(dir: string, es: seq<Entry>, x: FileInfo)
    decreases es
  {
    exists i :: 0 <= i < |es| && ReachedIn(dir, es[i], x)
  }

  ghost predicate ReachedIn(dir: string, e: Entry, x: FileInfo)
    decreases e
  {
    var path := Join(dir, e.name);
    if IsModelName(e.name) then x == FileInfo(path, e.mtime)
    else e.Dir? && Reached(path, e.children, x)
  }

  /** The source's accumulator-passing traversal appends exactly the walk,
      in order. */
  lemma {:induction false} TraverseIsWalk(dir: string, entries: seq<Entry>, acc: seq<FileInfo>)
    requires WellFormed(entries)
    ensures Traverse(dir, entries, acc) == acc + Walk(dir, entries)
    decreases entries
  {
    if |entries| > 0 {
      var e, rest := entries[0], entries[1..];
      var path := Join(dir, e.name);
      assert ValidName(e.name) && WellFormed(rest);
      ExtJoin(dir, e.name);
      var acc' :=
        if IsModelName(e.name) then acc + [FileInfo(path, e.mtime)]
        else if e.Dir? then Traverse(path, e.children, acc)
        else acc;
      assert Traverse(dir, entries, acc) == Traverse(dir, rest, acc');
      TraverseIsWalk(dir, rest, acc');
      if !IsModelName(e.name) && e.Dir? {
        assert WellFormed(e.children);
        TraverseIsWalk(path, e.children, acc);
      }
      assert acc' == acc + WalkEntry(dir, e);
      calc {
        Traverse(dir, entries, acc);
        (acc + WalkEntry(dir, e)) + Walk(dir, rest);
        { ConcatAssoc(acc, WalkEntry(dir, e), Walk(dir, rest)); }
        acc + (WalkEntry(dir, e) + Walk(dir, rest));
      }
    }
  }

  lemma ReachedCons(dir: string, es: seq<Entry>, x: FileInfo)
    requires |es| > 0
    ensures Reached(dir, es, x) <==> ReachedIn(dir, es[0], x) || Reached(dir, es[1..], x)
  {
    if Reached(dir, es, x) {
      var i :| 0 <= i < |es| && ReachedIn(dir, es[i], x);
      if i > 0 {
        assert es[1..][i - 1] == es[i];
      }
    }
    if Reached(dir, es[1..], x) {
      var i :| 0 <= i < |es[1..]| && ReachedIn(dir, es[1..][i], x);
      assert es[i + 1] == es[1..][i];
    }
  }

  /** The walk emits exactly the entries reached from the listing. */
  lemma {:induction false} WalkFindsExactly(dir: string, es: seq<Entry>, x: FileInfo)
    ensures x in Walk(dir, es) <==> Reached(dir, es, x)
    decreases es
  {
    if |es| > 0 {
      WalkEntryFindsExactly(dir, es[0], x);
      WalkFindsExactly(dir, es[1..], x);
      ReachedCons(dir, es, x);
    }
  }

  lemma {:induction false} WalkEntryFindsExactly(dir: string, e: Entry, x: FileInfo)
    ensures x in WalkEntry(dir, e) <==> ReachedIn(dir, e, x)
    decreases e
  {
    if !IsModelName(e.name) && e.Dir? {
      WalkFindsExactly(Join(dir, e.name), e.children, x);
    }
  }

  /** `x` is named like a model file: its base name is an entry name with
      one of the model extensions. */
  predicate ModelNamed(x: FileInfo)
  {
    IsModelName(Basename(x.path)) && Ext(x.path) in ModelExts
  }

  /** Everything the walk emits is named like a model file. */
  lemma {:induction false} WalkOnlyModels(dir: string, es: seq<Entry>)
    requires WellFormed(es)
    ensures forall x :: x in Walk(dir, es) ==> ModelNamed(x)
    decreases es
  {
    if |es| > 0 {
      assert WellFormed(es[1..]);
      WalkEntryOnlyModels(dir, es[0]);
      WalkOnlyModels(dir, es[1..]);
      var a, b := WalkEntry(dir, es[0]), Walk(dir, es[1..]);
      assert forall x :: x in a + b ==> x in a || x in b;
    }
  }

  lemma {:induction false} WalkEntryOnlyModels(dir: string, e: Entry)
    requires ValidName(e.name) && (e.Dir? ==> WellFormed(e.children))
    ensures forall x :: x in WalkEntry(dir, e) ==> ModelNamed(x)
    decreases e
  {
    var path := Join(dir, e.name);
    if IsModelName(e.name) {
      BasenameJoin(dir, e.name);
      ExtJoin(dir, e.name);
      assert ModelNamed(FileInfo(path, e.mtime));
    } else if e.Dir? {
      WalkOnlyModels(path, e.children);
    }
  }
}
