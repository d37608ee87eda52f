// An insertion-ordered dictionary: Python's dict and OrderedDict and a
// JavaScript object all keep their keys in insertion order, and assigning
// to an existing key keeps its place.
module ODict {
  import opened Wrappers

  type Dict<K, V> = seq<(K, V)>

  function Keys<K, V>(d: Dict<K, V>): (ks: seq<K>)
    ensures |ks| == |d|
    ensures forall i :: 0 <= i < |d| ==> ks[i] == d[i].0
  {
    if d == [] then [] else [d[0].0] + Keys(d[1..])
  }

  function Values<K, V>(d: Dict<K, V>): (vs: seq<V>)
    ensures |vs| == |d|
    ensures forall i :: 0 <= i < |d| ==> vs[i] == d[i].1
  {
    if d == [] then [] else [d[0].1] + Values(d[1..])
  }

  /** No key occurs twice. */
  ghost predicate Distinct<K, V>(d: Dict<K, V>)
  {
    forall i, j :: 0 <= i < j < |d| ==> d[i].0 != d[j].0
  }

  predicate Has<K(==), V>(d: Dict<K, V>, k: K)
  {
    exists i :: 0 <= i < |d| && d[i].0 == k
  }

  /** `d[k]`, or None when `k` is not a key (a KeyError at a subscript). */
  function Get<K(==), V>(d: Dict<K, V>, k: K): (r: Option<V>)
    ensures r.None? <==> !Has(d, k)
    ensures r.Some? ==> exists i :: 0 <= i < |d| && d[i] == (k, r.value)
  {
    if d == [] then None
    else if d[0].0 == k then Some(d[0].1)
    else
      var r := Get(d[1..], k);
      assert r.Some? ==> exists i :: 0 <= i < |d[1..]| && d[1..][i] == (k, r.value);
      r
  }

  /** `d.get(k, default)`. */
  function GetOr<K(==), V>(d: Dict<K, V>, k: K, default: V): V
  {
    Get(d, k).GetOr(default)
  }

  /** `d[k] = v`: an existing key keeps its place, a new key goes last. */
  function Put<K(==), V>(d: Dict<K, V>, k: K, v: V): (r: Dict<K, V>)
    ensures Has(d, k) ==> |r| == |d|
    ensures !Has(d, k) ==> r == d + [(k, v)]
    ensures forall i :: 0 <= i < |d| ==> r[i] == (if d[i].0 == k then (k, v) else d[i])
  {
    if Has(d, k) then seq(|d|, i requires 0 <= i < |d| => if d[i].0 == k then (k, v) else d[i])
    else d + [(k, v)]
  }

  /** `del d[k]` when `k` is a key; unchanged otherwise. */
  function Remove<K(==), V>(d: Dict<K, V>, k: K): (r: Dict<K, V>)
    ensures |r| <= |d|
    ensures !Has(r, k)
    ensures forall p :: p in r ==> p in d
  {
    if d == [] then []
    else if d[0].0 == k then Remove(d[1..], k)
    else [d[0]] + Remove(d[1..], k)
  }

  /** `d.update(e)`. */
  function Update<K(==), V>(d: Dict<K, V>, e: Dict<K, V>): Dict<K, V>
    decreases |e|
  {
    if e == [] then d else Update(Put(d, e[0].0, e[0].1), e[1..])
  }

  /** A dict built from pairs, later pairs overwriting earlier ones (dict(zip(...))). */
  function FromPairs<K(==), V>(ps: seq<(K, V)>): Dict<K, V>
  {
    Update([], ps)
  }

  // ---------------------------------------------------------------------
  // Behaviour of the operations.

  lemma GetPutSame<K, V>(d: Dict<K, V>, k: K, v: V)
    ensures Get(Put(d, k, v), k) == Some(v)
  {
    var r := Put(d, k, v);
    if Has(d, k) {
      var i :| 0 <= i < |d| && d[i].0 == k;
      assert r[i].0 == k;
    } else {
      assert r[|d|] == (k, v);
    }
    GetOfDistinctFirst(r, k);
  }

  lemma {:induction false} GetOfDistinctFirst<K, V>(d: Dict<K, V>, k: K)
    requires Has(d, k)
    ensures Get(d, k).Some?
    ensures forall i ::
      (0 <= i < |d| && d[i].0 == k && (forall j :: 0 <= j < i ==> d[j].0 != k))
      ==> Get(d, k) == Some(d[i].1)
  {
    if d[0].0 != k {
      var i :| 0 <= i < |d| && d[i].0 == k;
      assert d[1..][i - 1].0 == k;
      GetOfDistinctFirst(d[1..], k);
      forall i | 0 <= i < |d| && d[i].0 == k && (forall j :: 0 <= j < i ==> d[j].0 != k)
        ensures Get(d, k) == Some(d[i].1)
      {
        assert i > 0;
        assert d[1..][i - 1] == d[i];
        assert forall j :: 0 <= j < i - 1 ==> d[1..][j].0 != k by {
          forall j | 0 <= j < i - 1 ensures d[1..][j].0 != k { assert d[1..][j] == d[j + 1]; }
        }
      }
    }
  }

  /** In a dict without repeated keys, the entry at any index is the one Get finds. */
  lemma GetDistinct<K, V>(d: Dict<K, V>, k: K, i: nat)
    requires Distinct(d) && i < |d| && d[i].0 == k
    ensures Get(d, k) == Some(d[i].1)
  {
    GetOfDistinctFirst(d, k);
  }

  lemma {:induction false} GetAgree<K, V>(d: Dict<K, V>, r: Dict<K, V>, k: K)
    requires |d| == |r|
    requires forall i :: 0 <= i < |d| ==> (d[i].0 == k <==> r[i].0 == k)
    requires forall i :: 0 <= i < |d| && d[i].0 == k ==> r[i] == d[i]
    ensures Get(r, k) == Get(d, k)
  {
    if d != [] {
      GetAgree(d[1..], r[1..], k);
    }
  }

  lemma {:induction false} GetAppendOther<K, V>(d: Dict<K, V>, k: K, v: V, k2: K)
    requires k2 != k
    ensures Get(d + [(k, v)], k2) == Get(d, k2)
  {
    if d != [] {
      assert (d + [(k, v)])[1..] == d[1..] + [(k, v)];
      GetAppendOther(d[1..], k, v, k2);
    }
  }

  lemma {:induction false} GetAppendNew<K, V>(d: Dict<K, V>, k: K, v: V)
    requires !Has(d, k)
    ensures Get(d + [(k, v)], k) == Some(v)
  {
    if d != [] {
      assert (d + [(k, v)])[1..] == d[1..] + [(k, v)];
      GetAppendNew(d[1..], k, v);
    }
  }

  lemma GetPutOther<K, V>(d: Dict<K, V>, k: K, v: V, k2: K)
    requires k2 != k
    ensures Get(Put(d, k, v), k2) == Get(d, k2)
  {
    if Has(d, k) {
      GetAgree(d, Put(d, k, v), k2);
    } else {
      GetAppendOther(d, k, v, k2);
    }
  }

  lemma {:induction false} PutKeepsDistinct<K, V>(d: Dict<K, V>, k: K, v: V)
    requires Distinct(d)
    ensures Distinct(Put(d, k, v))
    ensures Has(Put(d, k, v), k)
  {
    var r := Put(d, k, v);
    if Has(d, k) {
      var i :| 0 <= i < |d| && d[i].0 == k;
      assert r[i].0 == k;
      forall a, b | 0 <= a < b < |r| ensures r[a].0 != r[b].0 {
        assert r[a].0 == d[a].0 && r[b].0 == d[b].0;
      }
    } else {
      assert r[|d|].0 == k;
      forall a, b | 0 <= a < b < |r| ensures r[a].0 != r[b].0 {
        if b == |d| {
          assert r[a] == d[a];
        } else {
          assert r[a] == d[a] && r[b] == d[b];
        }
      }
    }
  }

  /** Keys(Put(d, k, v)) is Keys(d), with `k` added at the end when it was not a key. */
  lemma PutKeys<K, V>(d: Dict<K, V>, k: K, v: V)
    ensures Keys(Put(d, k, v)) == if Has(d, k) then Keys(d) else Keys(d) + [k]
  {
    var r := Put(d, k, v);
    if Has(d, k) {
      assert forall i :: 0 <= i < |d| ==> Keys(r)[i] == Keys(d)[i];
    } else {
      assert forall i :: 0 <= i < |d| ==> Keys(r)[i] == (Keys(d) + [k])[i];
    }
  }

  lemma HasKeys<K, V>(d: Dict<K, V>, k: K)
    ensures Has(d, k) <==> k in Keys(d)
  {
    if Has(d, k) {
      var i :| 0 <= i < |d| && d[i].0 == k;
      assert Keys(d)[i] == k;
    }
  }

  lemma {:induction false} GetRemove<K, V>(d: Dict<K, V>, k: K, k2: K)
    ensures Get(Remove(d, k), k2) == if k2 == k then None else Get(d, k2)
  {
    if d != [] {
      GetRemove(d[1..], k, k2);
      if d[0].0 != k {
        assert ([d[0]] + Remove(d[1..], k))[1..] == Remove(d[1..], k);
      }
    }
  }

  /** update(e) leaves the keys that `e` does not mention alone. */
  lemma {:induction false} UpdateOther<K, V>(d: Dict<K, V>, e: Dict<K, V>, k: K)
    requires k !in Keys(e)
    ensures Get(Update(d, e), k) == Get(d, k)
    decreases |e|
  {
    if e != [] {
      assert Keys(e)[0] == e[0].0;
      assert k !in Keys(e[1..]) by {
        forall i | 0 <= i < |e[1..]| ensures Keys(e[1..])[i] != k { assert Keys(e[1..])[i] == Keys(e)[i + 1]; }
      }
      GetPutOther(d, e[0].0, e[0].1, k);
      UpdateOther(Put(d, e[0].0, e[0].1), e[1..], k);
    }
  }

  /** update(e): a key of `e` ends with the value of its last occurrence in `e`. */
  lemma {:induction false} UpdateLast<K, V>(d: Dict<K, V>, e: Dict<K, V>, i: nat)
    requires i < |e|
    requires forall j :: i < j < |e| ==> e[j].0 != e[i].0
    ensures Get(Update(d, e), e[i].0) == Some(e[i].1)
    decreases |e|
  {
    var k := e[i].0;
    var d1 := Put(d, e[0].0, e[0].1);
    if i == 0 {
      GetPutSame(d, k, e[0].1);
      assert k !in Keys(e[1..]) by {
        forall j | 0 <= j < |e[1..]| ensures Keys(e[1..])[j] != k { assert e[1..][j] == e[j + 1]; }
      }
      UpdateOther(d1, e[1..], k);
    } else {
      assert e[1..][i - 1] == e[i];
      assert forall j :: i - 1 < j < |e[1..]| ==> e[1..][j].0 != k by {
        forall j | i - 1 < j < |e[1..]| ensures e[1..][j].0 != k { assert e[1..][j] == e[j + 1]; }
      }
      UpdateLast(d1, e[1..], i - 1);
    }
  }

  /** update(a + b) is update(a) then update(b). */
  lemma {:induction false} UpdateAppend<K, V>(d: Dict<K, V>, a: Dict<K, V>, b: Dict<K, V>)
    ensures Update(d, a + b) == Update(Update(d, a), b)
    decreases |a|
  {
    if a != [] {
      assert (a + b)[0] == a[0] && (a + b)[1..] == a[1..] + b;
      UpdateAppend(Put(d, a[0].0, a[0].1), a[1..], b);
    } else {
      assert a + b == b;
    }
  }

  /** update(e) has the keys of `d` and of `e`. */
  lemma {:induction false} UpdateHas<K, V>(d: Dict<K, V>, e: Dict<K, V>, k: K)
    ensures Has(Update(d, e), k) <==> Has(d, k) || k in Keys(e)
    decreases |e|
  {
    if e != [] {
      var d1 := Put(d, e[0].0, e[0].1);
      UpdateHas(d1, e[1..], k);
      HasKeys(d, k);
      HasKeys(d1, k);
      PutKeys(d, e[0].0, e[0].1);
      assert Keys(e) == [e[0].0] + Keys(e[1..]);
    }
  }

  // ---------------------------------------------------------------------
  // Python lists, compared by identity

  /** list.remove(x) without the ValueError: the first occurrence of `x` taken out. */
  function RemoveFirst<T(==)>(xs: seq<T>, x: T): (r: seq<T>)
    ensures x in xs ==> |r| == |xs| - 1
    ensures x !in xs ==> r == xs
    ensures multiset(r) == multiset(xs) - multiset{x}
  {
    if xs == [] then []
    else if xs[0] == x then
      assert xs == [x] + xs[1..];
      xs[1..]
    else
      assert xs == [xs[0]] + xs[1..];
      [xs[0]] + RemoveFirst(xs[1..], x)
  }

  lemma RemoveFirstIn<T>(xs: seq<T>, x: T, y: T)
    requires y in RemoveFirst(xs, x)
    ensures y in xs
  {
    assert multiset(RemoveFirst(xs, x))[y] > 0;
  }

  /** No element occurs twice. */
  ghost predicate NoDup<T>(xs: seq<T>)
  {
    forall i, j :: 0 <= i < j < |xs| ==> xs[i] != xs[j]
  }

  /** Without duplicates, removing `x` removes it altogether and keeps the rest distinct. */
  lemma {:induction false} RemoveFirstNoDup<T>(xs: seq<T>, x: T)
    requires NoDup(xs)
    ensures x !in RemoveFirst(xs, x) && NoDup(RemoveFirst(xs, x))
  {
    if xs != [] {
      var tl := xs[1..];
      assert NoDup(tl) by {
        forall i, j | 0 <= i < j < |tl| ensures tl[i] != tl[j] { assert tl[i] == xs[i + 1] && tl[j] == xs[j + 1]; }
      }
      assert xs[0] !in tl by {
        forall k | 0 <= k < |tl| ensures tl[k] != xs[0] { assert tl[k] == xs[k + 1]; }
      }
      if xs[0] != x {
        RemoveFirstNoDup(tl, x);
        var rest := RemoveFirst(tl, x);
        assert xs[0] !in rest by {
          if xs[0] in rest { RemoveFirstIn(tl, x, xs[0]); }
        }
        NoDupCons(xs[0], rest);
      }
    }
  }

  /** Putting an element not yet present in front keeps a list free of duplicates. */
  lemma NoDupCons<T>(h: T, xs: seq<T>)
    requires NoDup(xs) && h !in xs
    ensures NoDup([h] + xs)
  {
    var r := [h] + xs;
    forall a, b | 0 <= a < b < |r| ensures r[a] != r[b] {
      assert r[b] == xs[b - 1];
      if a > 0 { assert r[a] == xs[a - 1]; }
    }
  }

  /** Appending an element not yet present keeps a list free of duplicates. */
  lemma NoDupSnoc<T>(xs: seq<T>, x: T)
    requires NoDup(xs) && x !in xs
    ensures NoDup(xs + [x])
  {
    var r := xs + [x];
    forall i, j | 0 <= i < j < |r| ensures r[i] != r[j] {
      assert r[i] == xs[i];
      if j < |xs| { assert r[j] == xs[j]; }
    }
  }

  /** A key of a dict is a key of every dict that extends it. */
  lemma HasPrefix<K, V>(d: Dict<K, V>, e: Dict<K, V>, k: K)
    requires d <= e && Has(d, k)
    ensures Has(e, k)
  {
    var i :| 0 <= i < |d| && d[i].0 == k;
    assert e[i] == d[i];
  }

  /** `for y in ys: xs.remove(y)`: each element taken out in turn; a missing one raises ValueError. */
  function RemoveEach<T(==)>(xs: seq<T>, ys: seq<T>): (r: Result<seq<T>>)
    ensures r.Err? ==> r.error == ValueError
    decreases |ys|
  {
    if ys == [] then Ok(xs)
    else if ys[0] !in xs then Err(ValueError)
    else RemoveEach(RemoveFirst(xs, ys[0]), ys[1..])
  }

  /** One removal of the loop over `ys[i..]`. */
  lemma RemoveEachStep<T>(xs: seq<T>, ys: seq<T>, i: nat)
    requires i < |ys|
    ensures RemoveEach(xs, ys[i..]) == if ys[i] !in xs then Err(ValueError) else RemoveEach(RemoveFirst(xs, ys[i]), ys[i + 1..])
  {
    assert ys[i..][0] == ys[i] && ys[i..][1..] == ys[i + 1..];
  }

  /** When every removal succeeds, exactly the removed elements are gone. */
  lemma {:induction false} RemoveEachMultiset<T>(xs: seq<T>, ys: seq<T>)
    requires RemoveEach(xs, ys).Ok?
    ensures multiset(RemoveEach(xs, ys).value) + multiset(ys) == multiset(xs)
    decreases |ys|
  {
    if ys != [] {
      var y := ys[0];
      var x1 := RemoveFirst(xs, y);
      var rest := RemoveEach(x1, ys[1..]).value;
      assert RemoveEach(xs, ys).value == rest;
      RemoveEachMultiset(x1, ys[1..]);
      assert multiset(ys) == multiset{y} + multiset(ys[1..]) by {
        assert ys == [y] + ys[1..];
      }
      RemoveFirstPut(xs, y);
      calc {
        multiset(rest) + multiset(ys);
        multiset(rest) + multiset(ys[1..]) + multiset{y};
        multiset(x1) + multiset{y};
        multiset(xs);
      }
    }
  }

  /** Taking out an element that is present and putting it back gives the same multiset. */
  lemma RemoveFirstPut<T>(xs: seq<T>, x: T)
    requires x in xs
    ensures multiset(RemoveFirst(xs, x)) + multiset{x} == multiset(xs)
  {
    assert x in multiset(xs);
  }

  /** Removing every element of `ys` succeeds when `ys` is a sub-multiset of `xs`. */
  lemma {:induction false} RemoveEachSucceeds<T>(xs: seq<T>, ys: seq<T>)
    requires multiset(ys) <= multiset(xs)
    ensures RemoveEach(xs, ys).Ok?
    decreases |ys|
  {
    if ys != [] {
      assert ys == [ys[0]] + ys[1..];
      assert ys[0] in multiset(xs);
      var x1 := RemoveFirst(xs, ys[0]);
      assert multiset(ys[1..]) <= multiset(x1);
      RemoveEachSucceeds(x1, ys[1..]);
    }
  }
}
