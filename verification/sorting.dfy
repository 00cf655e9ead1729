/** Python's `sorted`: a stable sort under a total preorder, written as an
    insertion sort on sequences. */
module Sorting {
  import opened Seqs


  ghost predicate Total<T(!new)>(le: (T, T) -> bool)
  {
    forall a, b :: le(a, b) || le(b, a)
  }

  ghost predicate Transitive<T(!new)>(le: (T, T) -> bool)
  {
    forall a, b, c :: le(a, b) && le(b, c) ==> le(a, c)
  }

  predicate Sorted<T>(s: seq<T>, le: (T, T) -> bool)
  {
    forall i, j :: 0 <= i < j < |s| ==> le(s[i], s[j])
  }

  /** `a` and `b` have equal sort keys. */
  predicate Tied<T>(le: (T, T) -> bool, a: T, b: T)
  {
    le(a, b) && le(b, a)
  }

  /** The elements of `s` whose key equals `x`'s, in their order in `s`.
      A sort is stable when it leaves every such group in input order. */
  function Peers<T>(x: T, s: seq<T>, le: (T, T) -> bool): seq<T>
  {
    if |s| == 0 then []
    else (if Tied(le, x, s[0]) then [s[0]] else []) + Peers(x, s[1..], le)
  }

  /** Places `x` before the first element whose key is not smaller. */
  function Insert<T>(x: T, s: seq<T>, le: (T, T) -> bool): (r: seq<T>)
    ensures multiset(r) == multiset(s) + multiset{x}
  {
    if |s| == 0 || le(x, s[0]) then [x] + s
    else
      assert s == [s[0]] + s[1..];
      [s[0]] + Insert(x, s[1..], le)
  }

  /** `sorted(s, key=...)`. */
  function Sort<T>(s: seq<T>, le: (T, T) -> bool): (r: seq<T>)
    ensures multiset(r) == multiset(s)
  {
    if |s| == 0 then []
    else
      assert s == [s[0]] + s[1..];
      Insert(s[0], Sort(s[1..], le), le)
  }

  lemma {:induction false} InsertSorted<T(!new)>(x: T, s: seq<T>, le: (T, T) -> bool)
    requires Total(le) && Transitive(le) && Sorted(s, le)
    ensures Sorted(Insert(x, s, le), le)
  {
    if |s| > 0 && !le(x, s[0]) {
      var rest := Insert(x, s[1..], le);
      InsertSorted(x, s[1..], le);
      forall e | e in rest
        ensures le(s[0], e)
      {
        assert e in multiset(rest);
        if e != x {
          var j :| 0 <= j < |s[1..]| && s[1..][j] == e;
          assert s[j + 1] == e;
        }
      }
      var r := [s[0]] + rest;
      forall i, j | 0 <= i < j < |r|
        ensures le(r[i], r[j])
      {
        if i == 0 {
          assert r[j] in rest;
        } else {
          assert r[i] == rest[i - 1] && r[j] == rest[j - 1];
        }
      }
    }
  }

  /** The sort puts its result in non-decreasing key order. */
  lemma {:induction false} SortSorted<T(!new)>(s: seq<T>, le: (T, T) -> bool)
    requires Total(le) && Transitive(le)
    ensures Sorted(Sort(s, le), le)
  {
    if |s| > 0 {
      SortSorted(s[1..], le);
      InsertSorted(s[0], Sort(s[1..], le), le);
    }
  }

  lemma {:induction false} PeersConcat<T>(x: T, a: seq<T>, b: seq<T>, le: (T, T) -> bool)
    ensures Peers(x, a + b, le) == Peers(x, a, le) + Peers(x, b, le)
    decreases |a|
  {
    if |a| == 0 {
      assert a + b == b;
    } else {
      var h := if Tied(le, x, a[0]) then [a[0]] else [];
      assert (a + b)[0] == a[0];
      assert (a + b)[1..] == a[1..] + b;
      PeersConcat(x, a[1..], b, le);
      ConcatAssoc(h, Peers(x, a[1..], le), Peers(x, b, le));
    }
  }

  /** Under a transitive order, `x` is not tied with both of two elements
      that are out of order. */
  lemma NotTiedWithBoth<T(!new)>(x: T, y: T, z: T, le: (T, T) -> bool)
    requires Transitive(le) && !le(y, z)
    ensures Peers(x, [y], le) == [] || Peers(x, [z], le) == []
  {
    assert [y][1..] == [] && [z][1..] == [];
    assert Tied(le, x, y) ==> !le(x, z);
  }

  /** Insertion never moves `y` past an element tied with it. */
  lemma {:induction false} InsertStable<T(!new)>(x: T, y: T, s: seq<T>, le: (T, T) -> bool)
    requires Transitive(le)
    ensures Peers(x, Insert(y, s, le), le) == Peers(x, [y] + s, le)
  {
    if |s| > 0 && !le(y, s[0]) {
      var py := Peers(x, [y], le);
      var p0 := Peers(x, [s[0]], le);
      var tail := s[1..];
      var ins := Insert(y, tail, le);
      assert Insert(y, s, le) == [s[0]] + ins;
      assert s == [s[0]] + tail;
      InsertStable(x, y, tail, le);
      NotTiedWithBoth(x, y, s[0], le);
      PeersConcat(x, [s[0]], ins, le);
      PeersConcat(x, [y], tail, le);
      PeersConcat(x, [y], s, le);
      PeersConcat(x, [s[0]], tail, le);
      calc {
        Peers(x, Insert(y, s, le), le);
        p0 + Peers(x, ins, le);
        p0 + (py + Peers(x, tail, le));
        { ConcatAssoc(p0, py, Peers(x, tail, le)); }
        (p0 + py) + Peers(x, tail, le);
        { assert p0 + py == py + p0; }
        (py + p0) + Peers(x, tail, le);
        { ConcatAssoc(py, p0, Peers(x, tail, le)); }
        py + Peers(x, s, le);
        Peers(x, [y] + s, le);
      }
    }
  }

  /** Elements with equal keys keep their input order. */
  lemma {:induction false} SortStable<T(!new)>(x: T, s: seq<T>, le: (T, T) -> bool)
    requires Transitive(le)
    ensures Peers(x, Sort(s, le), le) == Peers(x, s, le)
  {
    if |s| > 0 {
      var tail := s[1..];
      var sorted := Sort(tail, le);
      assert Sort(s, le) == Insert(s[0], sorted, le);
      assert s == [s[0]] + tail;
      SortStable(x, tail, le);
      InsertStable(x, s[0], sorted, le);
      PeersConcat(x, [s[0]], sorted, le);
      PeersConcat(x, [s[0]], tail, le);
    }
  }
}
