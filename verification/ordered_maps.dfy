/** Python's insertion-ordered `dict`, as the sequence of its entries.
    Assigning to an existing key keeps the key where it is; a new key goes
    to the end. A dict display `{**a, **b}` inserts the entries of `a`, then
    those of `b`, into an empty dict. */
module OrderedMaps {
  import opened Wrappers
  import opened Seqs

  type Dict<K, V> = seq<(K, V)>

  predicate HasKey<K(==,!new), V(!new)>(d: Dict<K, V>, k: K)
  {
    exists i :: 0 <= i < |d| && d[i].0 == k
  }

  /** No key occurs twice: true of every dict Python builds. */
  predicate KeysDistinct<K(==,!new), V(!new)>(d: Dict<K, V>)
  {
    forall i, j :: 0 <= i < j < |d| ==> d[i].0 != d[j].0
  }

  lemma HasKeyCons<K(!new), V(!new)>(d: Dict<K, V>)
    requires |d| > 0
    ensures forall k :: HasKey(d, k) <==> d[0].0 == k || HasKey(d[1..], k)
  {
    forall k | HasKey(d, k)
      ensures d[0].0 == k || HasKey(d[1..], k)
    {
      var i :| 0 <= i < |d| && d[i].0 == k;
      if i > 0 {
        assert d[1..][i - 1] == d[i];
      }
    }
    forall k | HasKey(d[1..], k)
      ensures HasKey(d, k)
    {
      var i :| 0 <= i < |d[1..]| && d[1..][i].0 == k;
      assert d[i + 1] == d[1..][i];
    }
  }

  lemma HasKeyAppend<K(!new), V(!new)>(d: Dict<K, V>, k: K, v: V)
    ensures forall j :: HasKey(d + [(k, v)], j) <==> HasKey(d, j) || j == k
  {
    forall j | HasKey(d + [(k, v)], j)
      ensures HasKey(d, j) || j == k
    {
      var i :| 0 <= i < |d| + 1 && (d + [(k, v)])[i].0 == j;
      if i < |d| {
        assert d[i] == (d + [(k, v)])[i];
      }
    }
    forall j | HasKey(d, j)
      ensures HasKey(d + [(k, v)], j)
    {
      var i :| 0 <= i < |d| && d[i].0 == j;
      assert (d + [(k, v)])[i] == d[i];
    }
    assert (d + [(k, v)])[|d|].0 == k;
  }

  lemma HasKeyConcat<K(!new), V(!new)>(a: Dict<K, V>, b: Dict<K, V>)
    ensures forall k :: HasKey(a + b, k) <==> HasKey(a, k) || HasKey(b, k)
  {
    forall k | HasKey(a + b, k)
      ensures HasKey(a, k) || HasKey(b, k)
    {
      var i :| 0 <= i < |a + b| && (a + b)[i].0 == k;
      if i < |a| {
        assert a[i] == (a + b)[i];
      } else {
        assert b[i - |a|] == (a + b)[i];
      }
    }
    forall k | HasKey(a, k)
      ensures HasKey(a + b, k)
    {
      var i :| 0 <= i < |a| && a[i].0 == k;
      assert (a + b)[i] == a[i];
    }
    forall k | HasKey(b, k)
      ensures HasKey(a + b, k)
    {
      var i :| 0 <= i < |b| && b[i].0 == k;
      assert (a + b)[|a| + i] == b[i];
    }
  }

  /** `d.get(k)`. */
  function Get<K(==,!new), V(!new)>(d: Dict<K, V>, k: K): (r: Option<V>)
    ensures r.Some? <==> HasKey(d, k)
    ensures r.Some? ==> (k, r.value) in d
    ensures KeysDistinct(d) ==> forall i :: 0 <= i < |d| && d[i].0 == k ==> r == Some(d[i].1)
  {
    if |d| == 0 then None
    else
      HasKeyCons(d);
      if d[0].0 == k then Some(d[0].1)
      else Get(d[1..], k)
  }

  /** `d[k] = v`. (Every occurrence of `k` takes the new value; a dict has
      at most one.) */
  function Put<K(==,!new), V(!new)>(d: Dict<K, V>, k: K, v: V): (r: Dict<K, V>)
    ensures !HasKey(d, k) ==> r == d + [(k, v)]
    ensures HasKey(d, k) ==> |r| == |d| && forall i :: 0 <= i < |d| ==> r[i].0 == d[i].0
    ensures forall j :: HasKey(r, j) <==> HasKey(d, j) || j == k
    ensures forall e :: e in r ==> e in d || e == (k, v)
    ensures KeysDistinct(d) ==> KeysDistinct(r)
  {
    if HasKey(d, k) then
      var r := seq(|d|, i requires 0 <= i < |d| => if d[i].0 == k then (k, v) else d[i]);
      assert forall j :: HasKey(r, j) <==> HasKey(d, j) by {
        forall j | HasKey(r, j) ensures HasKey(d, j) {
          var i :| 0 <= i < |r| && r[i].0 == j;
          assert d[i].0 == j;
        }
        forall j | HasKey(d, j) ensures HasKey(r, j) {
          var i :| 0 <= i < |d| && d[i].0 == j;
          assert r[i].0 == j;
        }
      }
      r
    else
      HasKeyAppend(d, k, v);
      d + [(k, v)]
  }

  /** After `d[k] = v`, looking up `k` gives `v` and every other key is as
      before. */
  lemma GetPut<K(!new), V(!new)>(d: Dict<K, V>, k: K, v: V)
    requires KeysDistinct(d)
    ensures Get(Put(d, k, v), k) == Some(v)
    ensures forall j :: j != k ==> Get(Put(d, k, v), j) == Get(d, j)
  {
    var r := Put(d, k, v);
    if HasKey(d, k) {
      var i :| 0 <= i < |d| && d[i].0 == k;
      assert r[i] == (k, v);
      forall j | j != k && HasKey(d, j)
        ensures Get(r, j) == Get(d, j)
      {
        var i :| 0 <= i < |d| && d[i].0 == j;
        assert r[i] == d[i];
      }
    } else {
      assert r[|d|] == (k, v);
      forall j | j != k && HasKey(d, j)
        ensures Get(r, j) == Get(d, j)
      {
        var i :| 0 <= i < |d| && d[i].0 == j;
        assert r[i] == d[i];
      }
    }
  }

  /** `d.update(ps)`: the entries of `ps` assigned in order. */
  function Update<K(==,!new), V(!new)>(d: Dict<K, V>, ps: Dict<K, V>): (r: Dict<K, V>)
    ensures KeysDistinct(d) ==> KeysDistinct(r)
    ensures forall e :: e in r ==> e in d || e in ps
    ensures forall k :: HasKey(r, k) <==> HasKey(d, k) || HasKey(ps, k)
    decreases |ps|
  {
    if |ps| == 0 then d
    else
      HasKeyCons(ps);
      var d' := Put(d, ps[0].0, ps[0].1);
      Update(d', ps[1..])
  }

  /** A dict built from a sequence of pairs: `dict(ps)`, or a dict display. */
  function FromPairs<K(==,!new), V(!new)>(ps: Dict<K, V>): Dict<K, V>
  {
    Update([], ps)
  }

  /** The value the last pair with key `k` gives, if any pair has key `k`. */
  function Latest<K(==,!new), V(!new)>(ps: Dict<K, V>, k: K): (r: Option<V>)
    ensures r.Some? <==> HasKey(ps, k)
    ensures r.Some? ==> (k, r.value) in ps
  {
    if |ps| == 0 then None
    else
      HasKeyCons(ps);
      var later := Latest(ps[1..], k);
      assert later.Some? ==> (k, later.value) in ps by {
        if later.Some? {
          assert (k, later.value) in ps[1..];
        }
      }
      if later.Some? then later
      else if ps[0].0 == k then Some(ps[0].1)
      else None
  }

  /** Applying a sequence of assignments in two parts is applying it whole. */
  lemma {:induction false} UpdateAppend<K(!new), V(!new)>(d: Dict<K, V>, a: Dict<K, V>, b: Dict<K, V>)
    ensures Update(d, a + b) == Update(Update(d, a), b)
    decreases |a|
  {
    if |a| == 0 {
      assert a + b == b;
    } else {
      assert (a + b)[0] == a[0] && (a + b)[1..] == a[1..] + b;
      UpdateAppend(Put(d, a[0].0, a[0].1), a[1..], b);
    }
  }

  /** After `d.update(ps)` a key holds the value its last assignment gave,
      or its old value when `ps` does not mention it. */
  lemma {:induction false} GetUpdate<K(!new), V(!new)>(d: Dict<K, V>, ps: Dict<K, V>, k: K)
    requires KeysDistinct(d)
    ensures Get(Update(d, ps), k) == if HasKey(ps, k) then Latest(ps, k) else Get(d, k)
    decreases |ps|
  {
    if |ps| > 0 {
      HasKeyCons(ps);
      GetPut(d, ps[0].0, ps[0].1);
      GetUpdate(Put(d, ps[0].0, ps[0].1), ps[1..], k);
    }
  }

  /** Assigning keys that are all new appends them, in order. */
  lemma {:induction false} UpdateAllNew<K(!new), V(!new)>(d: Dict<K, V>, ps: Dict<K, V>)
    requires KeysDistinct(d + ps)
    ensures Update(d, ps) == d + ps
    decreases |ps|
  {
    if |ps| > 0 {
      forall i | 0 <= i < |d|
        ensures d[i].0 != ps[0].0
      {
        assert (d + ps)[i] == d[i] && (d + ps)[|d|] == ps[0];
      }
      var d' := d + [ps[0]];
      assert d' + ps[1..] == d + ps;
      UpdateAllNew(d', ps[1..]);
    }
  }

  /** A dict built from pairs with distinct keys lists exactly those pairs. */
  lemma FromDistinctPairs<K(!new), V(!new)>(ps: Dict<K, V>)
    requires KeysDistinct(ps)
    ensures FromPairs(ps) == ps
  {
    assert [] + ps == ps;
    UpdateAllNew([], ps);
  }

  /** The position of the first pair with key `k`, or `|ps|` when there is
      none. */
  function FirstIndex<K(==,!new), V(!new)>(ps: Dict<K, V>, k: K): (r: nat)
    ensures r <= |ps|
    ensures r < |ps| <==> HasKey(ps, k)
    ensures r < |ps| ==> ps[r].0 == k
    ensures forall j :: 0 <= j < r ==> ps[j].0 != k
  {
    if |ps| == 0 then 0
    else if ps[0].0 == k then 0
    else
      HasKeyCons(ps);
      var r := 1 + FirstIndex(ps[1..], k);
      assert forall j :: 0 < j < r ==> ps[j] == ps[1..][j - 1];
      r
  }

  /** Appending a pair moves no first position, and gives a new key the
      last one. */
  lemma FirstIndexAppend<K(!new), V(!new)>(ps: Dict<K, V>, p: (K, V), k: K)
    ensures HasKey(ps, k) ==> FirstIndex(ps + [p], k) == FirstIndex(ps, k)
    ensures !HasKey(ps, k) && p.0 == k ==> FirstIndex(ps + [p], k) == |ps|
  {
    var f, g := FirstIndex(ps, k), FirstIndex(ps + [p], k);
    assert forall j :: 0 <= j < |ps| ==> (ps + [p])[j] == ps[j];
    if HasKey(ps, k) {
      assert (ps + [p])[f].0 == k;
    } else if p.0 == k {
      assert (ps + [p])[|ps|].0 == k;
    }
  }

  /** In `dict(ps)` every key holds the value of its last pair. */
  lemma FromPairsValues<K(!new), V(!new)>(ps: Dict<K, V>)
    ensures var r := FromPairs(ps);
      forall i :: 0 <= i < |r| ==> Latest(ps, r[i].0) == Some(r[i].1)
  {
    var r := FromPairs(ps);
    forall i | 0 <= i < |r|
      ensures Latest(ps, r[i].0) == Some(r[i].1)
    {
      GetUpdate([], ps, r[i].0);
      assert HasKey(r, r[i].0);
    }
  }

  /** The keys of `r` come in the order of their first pairs in `ps`. */
  ghost predicate InFirstOrder<K(!new), V(!new)>(r: Dict<K, V>, ps: Dict<K, V>)
  {
    forall i, j :: 0 <= i < j < |r| ==> FirstIndex(ps, r[i].0) < FirstIndex(ps, r[j].0)
  }

  /** `dict(ps + [p])` is `dict(ps)` with `p` assigned. */
  lemma FromPairsSnoc<K(!new), V(!new)>(ps: Dict<K, V>, p: (K, V))
    ensures FromPairs(ps + [p]) == Put(FromPairs(ps), p.0, p.1)
  {
    UpdateAppend([], ps, [p]);
  }

  /** Assigning one more pair keeps a dict in first-pair order. */
  lemma PutInFirstOrder<K(!new), V(!new)>(r: Dict<K, V>, ps: Dict<K, V>, p: (K, V))
    requires KeysDistinct(r) && InFirstOrder(r, ps)
    requires forall k :: HasKey(r, k) <==> HasKey(ps, k)
    ensures InFirstOrder(Put(r, p.0, p.1), ps + [p])
  {
    var r' := Put(r, p.0, p.1);
    forall i | 0 <= i < |r|
      ensures FirstIndex(ps + [p], r[i].0) == FirstIndex(ps, r[i].0) < |ps|
    {
      assert HasKey(r, r[i].0);
      FirstIndexAppend(ps, p, r[i].0);
    }
    if HasKey(r, p.0) {
      assert forall i :: 0 <= i < |r'| ==> r'[i].0 == r[i].0;
    } else {
      FirstIndexAppend(ps, p, p.0);
      forall i, j | 0 <= i < j < |r'|
        ensures FirstIndex(ps + [p], r'[i].0) < FirstIndex(ps + [p], r'[j].0)
      {
        assert r'[i] == r[i];
        if j < |r| {
          assert r'[j] == r[j];
        }
      }
    }
  }

  /** `dict(ps)` has exactly the keys of `ps`, each once and at the position
      of its first pair: a repeated key stays where it first appeared. */
  lemma {:induction false} FromPairsOrder<K(!new), V(!new)>(ps: Dict<K, V>)
    ensures var r := FromPairs(ps);
      && KeysDistinct(r)
      && (forall k :: HasKey(r, k) <==> HasKey(ps, k))
      && InFirstOrder(r, ps)
    decreases |ps|
  {
    if |ps| > 0 {
      var init, p := ps[..|ps| - 1], ps[|ps| - 1];
      assert ps == init + [p];
      FromPairsOrder(init);
      FromPairsSnoc(init, p);
      PutInFirstOrder(FromPairs(init), init, p);
    }
  }

  /** The entries of `ps` whose key `d` does not have, in order. */
  function Fresh<K(==,!new), V(!new)>(ps: Dict<K, V>, d: Dict<K, V>): (r: Dict<K, V>)
    ensures forall e :: e in r <==> e in ps && !HasKey(d, e.0)
    ensures KeysDistinct(ps) ==> KeysDistinct(r)
  {
    if |ps| == 0 then []
    else if HasKey(d, ps[0].0) then Fresh(ps[1..], d)
    else [ps[0]] + Fresh(ps[1..], d)
  }

  lemma {:induction false} FreshConcat<K(!new), V(!new)>(a: Dict<K, V>, b: Dict<K, V>, d: Dict<K, V>)
    ensures Fresh(a + b, d) == Fresh(a, d) + Fresh(b, d)
    decreases |a|
  {
    if |a| == 0 {
      assert a + b == b;
    } else {
      assert (a + b)[0] == a[0] && (a + b)[1..] == a[1..] + b;
      FreshConcat(a[1..], b, d);
    }
  }

  /** Keys `d` already has contribute nothing fresh. */
  lemma {:induction false} FreshOfKnown<K(!new), V(!new)>(ps: Dict<K, V>, d: Dict<K, V>)
    requires forall e :: e in ps ==> HasKey(d, e.0)
    ensures Fresh(ps, d) == []
    decreases |ps|
  {
    if |ps| > 0 {
      assert ps[0] in ps;
      FreshOfKnown(ps[1..], d);
    }
  }

  /** Fresh entries depend only on which keys the other dict has. */
  lemma {:induction false} FreshSameKeys<K(!new), V(!new)>(ps: Dict<K, V>, d: Dict<K, V>, d': Dict<K, V>)
    requires forall e :: e in ps ==> (HasKey(d, e.0) <==> HasKey(d', e.0))
    ensures Fresh(ps, d) == Fresh(ps, d')
    decreases |ps|
  {
    if |ps| > 0 {
      assert ps[0] in ps;
      FreshSameKeys(ps[1..], d, d');
    }
  }

  /** The entries of `x`, each taking the value `ps` gives its key, if any. */
  function Override<K(==,!new), V(!new)>(x: Dict<K, V>, ps: Dict<K, V>): (r: Dict<K, V>)
    ensures |r| == |x|
    ensures forall i :: 0 <= i < |x| ==> r[i] == (x[i].0, Get(ps, x[i].0).GetOr(x[i].1))
  {
    seq(|x|, i requires 0 <= i < |x| => (x[i].0, Get(ps, x[i].0).GetOr(x[i].1)))
  }

  /** One assignment to a key `x` has, followed by assignments that do not
      mention it. */
  lemma OverrideStepExisting<K(!new), V(!new)>(x: Dict<K, V>, ps: Dict<K, V>)
    requires KeysDistinct(x) && KeysDistinct(ps) && |ps| > 0 && HasKey(x, ps[0].0)
    ensures Override(Put(x, ps[0].0, ps[0].1), ps[1..]) == Override(x, ps)
    ensures forall e :: e in ps[1..] ==> (HasKey(Put(x, ps[0].0, ps[0].1), e.0) <==> HasKey(x, e.0))
  {
    var k, v := ps[0].0, ps[0].1;
    var x' := Put(x, k, v);
    forall i | 0 <= i < |ps[1..]|
      ensures ps[1..][i].0 != k
    {
      assert ps[1..][i] == ps[i + 1];
    }
    HasKeyCons(ps);
    assert forall i :: 0 <= i < |x| ==> Override(x', ps[1..])[i] == Override(x, ps)[i];
    forall j | HasKey(x', j) ensures HasKey(x, j) {
      var i :| 0 <= i < |x'| && x'[i].0 == j;
      assert x[i].0 == j;
    }
    forall j | HasKey(x, j) ensures HasKey(x', j) {
      var i :| 0 <= i < |x| && x[i].0 == j;
      assert x'[i].0 == j;
    }
  }

  /** One assignment to a key new to `x`, followed by assignments that do
      not mention it. */
  lemma OverrideStepNew<K(!new), V(!new)>(x: Dict<K, V>, ps: Dict<K, V>)
    requires KeysDistinct(ps) && |ps| > 0 && !HasKey(x, ps[0].0)
    ensures Override(Put(x, ps[0].0, ps[0].1), ps[1..]) == Override(x, ps) + [ps[0]]
    ensures !HasKey(ps[1..], ps[0].0)
  {
    var k, v := ps[0].0, ps[0].1;
    forall i | 0 <= i < |ps[1..]|
      ensures ps[1..][i].0 != k
    {
      assert ps[1..][i] == ps[i + 1];
    }
    HasKeyCons(ps);
    assert forall i :: 0 <= i < |x| ==> x[i].0 != k;
    var lhs := Override(Put(x, k, v), ps[1..]);
    assert forall i :: 0 <= i < |x| ==> lhs[i] == Override(x, ps)[i];
    assert lhs[|x|] == ps[0];
  }

  /** Fresh keys of `ps` other than `k` do not depend on whether `d` has `k`. */
  lemma FreshIgnoresKey<K(!new), V(!new)>(ps: Dict<K, V>, d: Dict<K, V>, k: K, v: V)
    requires !HasKey(ps, k)
    ensures Fresh(ps, d + [(k, v)]) == Fresh(ps, d)
  {
    HasKeyAppend(d, k, v);
    forall e | e in ps
      ensures HasKey(d + [(k, v)], e.0) <==> HasKey(d, e.0)
    {
      var i :| 0 <= i < |ps| && ps[i] == e;
    }
    FreshSameKeys(ps, d + [(k, v)], d);
  }

  /** `x.update(ps)` on dicts: the keys of `x` stay in place and take the
      values `ps` gives them; the keys new to `x` follow in `ps`'s order. */
  lemma {:induction false} UpdateShape<K(!new), V(!new)>(x: Dict<K, V>, ps: Dict<K, V>)
    requires KeysDistinct(x) && KeysDistinct(ps)
    ensures Update(x, ps) == Override(x, ps) + Fresh(ps, x)
    decreases |ps|
  {
    if |ps| == 0 {
      assert Override(x, ps) == x;
    } else {
      var x' := Put(x, ps[0].0, ps[0].1);
      assert KeysDistinct(ps[1..]);
      UpdateShape(x', ps[1..]);
      if HasKey(x, ps[0].0) {
        UpdateShapeExisting(x, ps);
      } else {
        UpdateShapeNew(x, ps);
      }
    }
  }

  lemma UpdateShapeExisting<K(!new), V(!new)>(x: Dict<K, V>, ps: Dict<K, V>)
    requires KeysDistinct(x) && KeysDistinct(ps) && |ps| > 0 && HasKey(x, ps[0].0)
    requires var x' := Put(x, ps[0].0, ps[0].1);
             Update(x', ps[1..]) == Override(x', ps[1..]) + Fresh(ps[1..], x')
    ensures Update(x, ps) == Override(x, ps) + Fresh(ps, x)
  {
    var x' := Put(x, ps[0].0, ps[0].1);
    OverrideStepExisting(x, ps);
    FreshSameKeys(ps[1..], x', x);
  }

  lemma UpdateShapeNew<K(!new), V(!new)>(x: Dict<K, V>, ps: Dict<K, V>)
    requires KeysDistinct(x) && KeysDistinct(ps) && |ps| > 0 && !HasKey(x, ps[0].0)
    requires var x' := Put(x, ps[0].0, ps[0].1);
             Update(x', ps[1..]) == Override(x', ps[1..]) + Fresh(ps[1..], x')
    ensures Update(x, ps) == Override(x, ps) + Fresh(ps, x)
  {
    var x' := Put(x, ps[0].0, ps[0].1);
    var o, f := Override(x, ps), Fresh(ps[1..], x);
    assert Override(x', ps[1..]) == o + [ps[0]] by {
      OverrideStepNew(x, ps);
    }
    assert Fresh(ps[1..], x') == f by {
      assert x' == x + [ps[0]];
      OverrideStepNew(x, ps);
      FreshIgnoresKey(ps[1..], x, ps[0].0, ps[0].1);
    }
    assert Fresh(ps, x) == [ps[0]] + f;
    calc {
      Update(x, ps);
      Update(x', ps[1..]);
      Override(x', ps[1..]) + Fresh(ps[1..], x');
      (o + [ps[0]]) + f;
      { ConcatAssoc(o, [ps[0]], f); }
      o + ([ps[0]] + f);
    }
  }

  /** Overriding the values of keys `d` has does not change what is fresh
      with respect to `d`. */
  lemma {:induction false} FreshOfOverride<K(!new), V(!new)>(x: Dict<K, V>, d: Dict<K, V>)
    ensures Fresh(Override(x, d), d) == Fresh(x, d)
    decreases |x|
  {
    if |x| > 0 {
      assert Override(x, d)[1..] == Override(x[1..], d);
      FreshOfOverride(x[1..], d);
    }
  }

  /** `d.update({**found, **d})`: every entry of `d` keeps its value and its
      position, and the entries of `found` whose key `d` lacks are appended
      in `found`'s order. On a shared key, `d`'s value wins. */
  lemma MergeKeepsExisting<K(!new), V(!new)>(d: Dict<K, V>, found: Dict<K, V>)
    requires KeysDistinct(d) && KeysDistinct(found)
    ensures Update(d, FromPairs(found + d)) == d + Fresh(found, d)
  {
    var x := FromPairs(found + d);
    UpdateAppend([], found, d);
    FromDistinctPairs(found);
    UpdateShape(found, d);
    assert x == Override(found, d) + Fresh(d, found);
    UpdateShape(d, x);
    MergedHoldsExisting(d, found);
    OverrideByOwnEntries(d, x);
    FreshConcat(Override(found, d), Fresh(d, found), d);
    FreshOfOverride(found, d);
    FreshOfKnown(Fresh(d, found), d);
    assert Fresh(found, d) + [] == Fresh(found, d);
  }

  /** Every entry of `d` survives `{**found, **d}` unchanged. */
  lemma MergedHoldsExisting<K(!new), V(!new)>(d: Dict<K, V>, found: Dict<K, V>)
    requires KeysDistinct(d)
    ensures forall i :: 0 <= i < |d| ==> d[i] in Override(found, d) + Fresh(d, found)
  {
    var x := Override(found, d) + Fresh(d, found);
    forall i | 0 <= i < |d|
      ensures d[i] in x
    {
      if HasKey(found, d[i].0) {
        var j :| 0 <= j < |found| && found[j].0 == d[i].0;
        assert x[j] == d[i];
      } else {
        assert d[i] in Fresh(d, found);
      }
    }
  }

  /** Overriding a dict with one that already holds all its entries changes
      nothing. */
  lemma OverrideByOwnEntries<K(!new), V(!new)>(d: Dict<K, V>, x: Dict<K, V>)
    requires KeysDistinct(x)
    requires forall i :: 0 <= i < |d| ==> d[i] in x
    ensures Override(d, x) == d
  {
    forall i | 0 <= i < |d|
      ensures Override(d, x)[i] == d[i]
    {
      var j :| 0 <= j < |x| && x[j] == d[i];
    }
  }

  /** `del d[k]`: the entries other than `k`'s, in order. */
  function Remove<K(==,!new), V(!new)>(d: Dict<K, V>, k: K): (r: Dict<K, V>)
    ensures forall e :: e in r <==> e in d && e.0 != k
    ensures KeysDistinct(d) ==> KeysDistinct(r)
  {
    if |d| == 0 then []
    else if d[0].0 == k then Remove(d[1..], k)
    else [d[0]] + Remove(d[1..], k)
  }
}
