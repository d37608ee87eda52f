// A stable insertion sort by a string key, as Python's sorted(xs, key=...)
// orders elements: by the key's code points, equal keys in their original
// order.
module Sorting {
  import opened Text

  ghost predicate SortedByKey<T>(xs: seq<T>, key: T -> string)
  {
    forall i, j :: 0 <= i < j < |xs| ==> StrLe(key(xs[i]), key(xs[j]))
  }

  /** Insert `x` after every element whose key is not greater (so equal keys keep their order). */
  function InsertByKey<T>(x: T, s: seq<T>, key: T -> string): (r: seq<T>)
    ensures multiset(r) == multiset(s) + multiset{x}
  {
    if s == [] then [x]
    else if StrLe(key(s[|s| - 1]), key(x)) then s + [x]
    else
      var init := s[..|s| - 1];
      assert s == init + [s[|s| - 1]];
      InsertByKey(x, init, key) + [s[|s| - 1]]
  }

  /** sorted(xs, key=key): each element inserted in turn. */
  function SortByKey<T>(xs: seq<T>, key: T -> string): (r: seq<T>)
    ensures multiset(r) == multiset(xs)
  {
    if xs == [] then []
    else
      var init := xs[..|xs| - 1];
      assert xs == init + [xs[|xs| - 1]];
      InsertByKey(xs[|xs| - 1], SortByKey(init, key), key)
  }

  lemma {:induction false} InsertElems<T>(x: T, s: seq<T>, key: T -> string)
    ensures |InsertByKey(x, s, key)| == |s| + 1
    ensures forall k :: 0 <= k < |s| + 1 ==> InsertByKey(x, s, key)[k] == x || InsertByKey(x, s, key)[k] in s
  {
    if s != [] && !StrLe(key(s[|s| - 1]), key(x)) {
      var init := s[..|s| - 1];
      InsertElems(x, init, key);
      var r1 := InsertByKey(x, init, key);
      assert forall k :: 0 <= k < |r1| ==> r1[k] == x || r1[k] in s by {
        forall k | 0 <= k < |r1| && r1[k] != x ensures r1[k] in s {
          var m :| 0 <= m < |init| && init[m] == r1[k];
          assert s[m] == init[m];
        }
      }
    }
  }

  lemma InsertAtEnd<T>(x: T, s: seq<T>, key: T -> string)
    requires SortedByKey(s, key) && s != [] && StrLe(key(s[|s| - 1]), key(x))
    ensures SortedByKey(s + [x], key)
  {
    var r := s + [x];
    forall i, j | 0 <= i < j < |r| ensures StrLe(key(r[i]), key(r[j])) {
      if j == |s| && i < |s| - 1 {
        StrLeTrans(key(s[i]), key(s[|s| - 1]), key(x));
      }
    }
  }

  lemma SnocSorted<T>(s: seq<T>, y: T, key: T -> string)
    requires SortedByKey(s, key)
    requires forall i :: 0 <= i < |s| ==> StrLe(key(s[i]), key(y))
    ensures SortedByKey(s + [y], key)
  {
    var r := s + [y];
    forall i, j | 0 <= i < j < |r| ensures StrLe(key(r[i]), key(r[j])) {
      if j == |s| { assert r[i] == s[i]; } else { assert r[i] == s[i] && r[j] == s[j]; }
    }
  }

  lemma {:induction false} InsertSorted<T>(x: T, s: seq<T>, key: T -> string)
    requires SortedByKey(s, key)
    ensures SortedByKey(InsertByKey(x, s, key), key)
  {
    if s == [] {
    } else if StrLe(key(s[|s| - 1]), key(x)) {
      InsertAtEnd(x, s, key);
    } else {
      var last := s[|s| - 1];
      var init := s[..|s| - 1];
      assert SortedByKey(init, key) by {
        forall i, j | 0 <= i < j < |init| ensures StrLe(key(init[i]), key(init[j])) {
          assert init[i] == s[i] && init[j] == s[j];
        }
      }
      InsertSorted(x, init, key);
      InsertElems(x, init, key);
      StrLeTotal(key(last), key(x));
      var r1 := InsertByKey(x, init, key);
      assert forall i :: 0 <= i < |r1| ==> StrLe(key(r1[i]), key(last)) by {
        forall i | 0 <= i < |r1| ensures StrLe(key(r1[i]), key(last)) {
          if r1[i] != x {
            var k :| 0 <= k < |init| && init[k] == r1[i];
            assert s[k] == r1[i];
          }
        }
      }
      SnocSorted(r1, last, key);
    }
  }

  /** The result of SortByKey is sorted by the key. */
  lemma {:induction false} SortByKeySorted<T>(xs: seq<T>, key: T -> string)
    ensures SortedByKey(SortByKey(xs, key), key)
  {
    if xs != [] {
      var init := xs[..|xs| - 1];
      SortByKeySorted(init, key);
      InsertSorted(xs[|xs| - 1], SortByKey(init, key), key);
    }
  }
}
