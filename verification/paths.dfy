/** POSIX path handling as `os.path` does it: `join`, `basename` and
    `splitext`, with `/` as the only separator. */
module Paths {

  /** Python's `str.rfind` for one character: the last position of `c` in
      `s`, or -1 when there is none. */
  function LastIndexOf(s: string, c: char): (r: int)
    ensures -1 <= r < |s|
    ensures r >= 0 ==> s[r] == c
    ensures forall i :: r < i < |s| ==> s[i] != c
    decreases |s|
  {
    if |s| == 0 then -1
    else if s[|s| - 1] == c then |s| - 1
    else LastIndexOf(s[..|s| - 1], c)
  }

  /** The contract of `LastIndexOf` pins its result down. */
  lemma LastIndexOfUnique(s: string, c: char, r: int)
    requires -1 <= r < |s|
    requires r >= 0 ==> s[r] == c
    requires forall i :: r < i < |s| ==> s[i] != c
    ensures r == LastIndexOf(s, c)
  {
  }

  lemma LastIndexOfConcat(a: string, b: string, c: char)
    ensures LastIndexOf(a + b, c) ==
              if LastIndexOf(b, c) >= 0 then |a| + LastIndexOf(b, c) else LastIndexOf(a, c)
  {
    var r := if LastIndexOf(b, c) >= 0 then |a| + LastIndexOf(b, c) else LastIndexOf(a, c);
    var s := a + b;
    forall i | r < i < |s|
      ensures s[i] != c
    {
      if i >= |a| {
        assert s[i] == b[i - |a|];
      }
    }
    LastIndexOfUnique(s, c, r);
  }

  /** A directory entry name as `os.scandir` yields it: never empty, never
      containing the separator. */
  predicate ValidName(name: string)
  {
    |name| > 0 && forall i :: 0 <= i < |name| ==> name[i] != '/'
  }

  /** `os.path.join(dir, name)` for two components. */
  function Join(dir: string, name: string): string
  {
    if |name| > 0 && name[0] == '/' then name
    else if |dir| == 0 || dir[|dir| - 1] == '/' then dir + name
    else dir + "/" + name
  }

  /** `os.path.basename(p)`: everything after the last separator. */
  function Basename(p: string): string
  {
    p[LastIndexOf(p, '/') + 1..]
  }

  /** Some character of `p[lo..hi]` is not a period. */
  predicate HasNonDot(p: string, lo: int, hi: int)
    requires 0 <= lo <= hi <= |p|
  {
    exists i :: lo <= i < hi && p[i] != '.'
  }

  /** `os.path.splitext(p)`: the extension runs from the last period of the
      last component, unless that component is nothing but leading periods
      before it (so `.pt` and `a/..pt` have no extension). */
  function SplitExt(p: string): (string, string)
  {
    var sep := LastIndexOf(p, '/');
    var dot := LastIndexOf(p, '.');
    if dot > sep && HasNonDot(p, sep + 1, dot) then (p[..dot], p[dot..]) else (p, "")
  }

  /** `splitext` splits and loses nothing: root and extension concatenate to
      the path, and the extension is empty or one period followed by
      neither a period nor a separator. An extension is found exactly when
      the last component has a period after some other character. */
  lemma SplitExtParts(p: string)
    ensures SplitExt(p).0 + SplitExt(p).1 == p
    ensures var ext := SplitExt(p).1;
      && (|ext| > 0 ==> ext[0] == '.')
      && (forall i :: 0 <= i < |ext| ==> ext[i] != '/')
      && (forall i :: 0 < i < |ext| ==> ext[i] != '.')
    ensures |SplitExt(p).1| > 0 <==>
      exists j, i :: 0 <= j < i < |p| && p[j] != '.' && p[i] == '.' && NoSeparatorFrom(p, j)
  {
    var sep, dot := LastIndexOf(p, '/'), LastIndexOf(p, '.');
    if |SplitExt(p).1| > 0 {
      var j :| sep + 1 <= j < dot && p[j] != '.';
      assert NoSeparatorFrom(p, j);
    }
    if exists j, i :: 0 <= j < i < |p| && p[j] != '.' && p[i] == '.' && NoSeparatorFrom(p, j) {
      var j, i :| 0 <= j < i < |p| && p[j] != '.' && p[i] == '.' && NoSeparatorFrom(p, j);
      assert sep < j;
      assert i <= dot;
      assert HasNonDot(p, sep + 1, dot);
    }
  }

  /** No separator occurs in `p` from position `j` on: `p[j..]` lies in the
      last component. */
  predicate NoSeparatorFrom(p: string, j: nat)
  {
    forall m :: j <= m < |p| ==> p[m] != '/'
  }

  /** `os.path.splitext(p)[1]`. */
  function Ext(p: string): string
  {
    SplitExt(p).1
  }

  /** `os.path.splitext(os.path.basename(p))[0]`: the file name without its
      directory and extension. */
  function Stem(p: string): string
  {
    SplitExt(Basename(p)).0
  }

  /** `Join` puts a separator-terminated (or empty) prefix before the name. */
  lemma JoinShape(dir: string, name: string) returns (prefix: string)
    requires ValidName(name)
    ensures Join(dir, name) == prefix + name
    ensures |prefix| == 0 || prefix[|prefix| - 1] == '/'
  {
    if |dir| == 0 || dir[|dir| - 1] == '/' {
      prefix := dir;
    } else {
      prefix := dir + "/";
    }
  }

  lemma BasenameJoin(dir: string, name: string)
    requires ValidName(name)
    ensures Basename(Join(dir, name)) == name
  {
    var prefix := JoinShape(dir, name);
    var p := prefix + name;
    LastIndexOfConcat(prefix, name, '/');
    assert LastIndexOf(name, '/') == -1;
    assert LastIndexOf(p, '/') == |prefix| - 1 by {
      if |prefix| > 0 {
        LastIndexOfUnique(prefix, '/', |prefix| - 1);
      }
    }
    assert p[|prefix|..] == name;
  }

  /** The last separator of `prefix + name` ends the prefix. */
  lemma LastSeparatorOfJoined(prefix: string, name: string)
    requires |prefix| == 0 || prefix[|prefix| - 1] == '/'
    requires ValidName(name)
    ensures LastIndexOf(prefix + name, '/') == |prefix| - 1
  {
    LastIndexOfConcat(prefix, name, '/');
    assert LastIndexOf(name, '/') == -1;
    if |prefix| > 0 {
      LastIndexOfUnique(prefix, '/', |prefix| - 1);
    }
  }

  /** The non-period test of `splitext` sees the same characters in the
      name as in the joined path. */
  lemma HasNonDotShift(prefix: string, name: string, dn: int)
    requires 0 <= dn <= |name|
    ensures HasNonDot(prefix + name, |prefix|, |prefix| + dn) <==> HasNonDot(name, 0, dn)
  {
    var p := prefix + name;
    var n := |prefix|;
    if HasNonDot(p, n, n + dn) {
      var i :| n <= i < n + dn && p[i] != '.';
      assert name[i - n] == p[i];
    }
    if HasNonDot(name, 0, dn) {
      var i :| 0 <= i < dn && name[i] != '.';
      assert p[i + n] == name[i];
    }
  }

  /** A name after a separator-terminated prefix keeps its extension. */
  lemma ExtAfterSeparator(prefix: string, name: string)
    requires |prefix| == 0 || prefix[|prefix| - 1] == '/'
    requires ValidName(name)
    ensures Ext(prefix + name) == Ext(name)
  {
    var p := prefix + name;
    var n := |prefix|;
    LastSeparatorOfJoined(prefix, name);
    LastIndexOfConcat(prefix, name, '.');
    var dn := LastIndexOf(name, '.');
    assert LastIndexOf(name, '/') == -1;
    if dn >= 0 {
      HasNonDotShift(prefix, name, dn);
      assert p[n + dn..] == name[dn..];
      assert LastIndexOf(p, '.') == n + dn;
      assert SplitExt(p).1 == if HasNonDot(name, 0, dn) then name[dn..] else "";
    } else {
      assert SplitExt(p).1 == "";
    }
  }

  /** The extension test on a joined path is the extension test on the
      entry's own name. */
  lemma ExtJoin(dir: string, name: string)
    requires ValidName(name)
    ensures Ext(Join(dir, name)) == Ext(name)
  {
    var prefix := JoinShape(dir, name);
    ExtAfterSeparator(prefix, name);
  }
}
