// js/test/flatten.js: flatten(data), which writes every leaf of a JSON-like
// value into one result object under its dotted path (recording empty
// arrays and objects too), and compareDict(a, b), which lists the keys the
// flattened values do not share and the values that differ. Numbers are
// integers here; JavaScript's floating point is not part of this model.
// An object given as input is the list of its properties in the order a
// for-in loop visits them; the object flatten builds is a dict in insertion
// order, and JsOrder gives the order a for-in loop visits it in.
module JsFlatten {
  import opened Wrappers
  import opened Text
  import opened ODict
  import opened Flatten

  datatype Prim = JNull | JUndefined | JBool(b: bool) | JNum(n: int) | JStr(s: string)

  /** What flatten stores under a key: a primitive, or a new empty array or object. */
  datatype Flat = Scalar(p: Prim) | EmptyArray | EmptyObject

  // ---------------------------------------------------------------------
  // Property order of a JavaScript object

  /** A canonical array index: the decimal form of an integer below 2^32 - 1. */
  predicate IsArrayIndex(k: string)
  {
    AllDigits(k) && (|k| == 1 || k[0] != '0') && DigitsValue(k) < 4294967295
  }

  function IndexOfKey(k: string): nat
    requires IsArrayIndex(k)
  {
    DigitsValue(k)
  }

  ghost predicate IndexEntriesSorted<V>(s: seq<(string, V)>)
  {
    && (forall j :: 0 <= j < |s| ==> IsArrayIndex(s[j].0))
    && (forall i, j :: 0 <= i < j < |s| ==> IndexOfKey(s[i].0) <= IndexOfKey(s[j].0))
  }

  function InsertIndex<V>(x: (string, V), s: seq<(string, V)>): (r: seq<(string, V)>)
    requires IsArrayIndex(x.0) && forall j :: 0 <= j < |s| ==> IsArrayIndex(s[j].0)
    ensures multiset(r) == multiset(s) + multiset{x}
    ensures |r| == |s| + 1 && forall j :: 0 <= j < |r| ==> IsArrayIndex(r[j].0)
  {
    if s == [] then [x]
    else if IndexOfKey(x.0) <= IndexOfKey(s[0].0) then [x] + s
    else
      var t := InsertIndex(x, s[1..]);
      assert s == [s[0]] + s[1..];
      assert forall j :: 1 <= j < |t| + 1 ==> ([s[0]] + t)[j] == t[j - 1];
      [s[0]] + t
  }

  lemma {:induction false} InsertIndexBound<V>(x: (string, V), s: seq<(string, V)>, b: nat)
    requires IsArrayIndex(x.0) && forall j :: 0 <= j < |s| ==> IsArrayIndex(s[j].0)
    requires b <= IndexOfKey(x.0) && forall j :: 0 <= j < |s| ==> b <= IndexOfKey(s[j].0)
    ensures forall j :: 0 <= j < |InsertIndex(x, s)| ==> b <= IndexOfKey(InsertIndex(x, s)[j].0)
  {
    if s != [] && IndexOfKey(x.0) > IndexOfKey(s[0].0) {
      InsertIndexBound(x, s[1..], b);
    }
  }

  lemma {:induction false} InsertIndexSorted<V>(x: (string, V), s: seq<(string, V)>)
    requires IsArrayIndex(x.0) && IndexEntriesSorted(s)
    ensures IndexEntriesSorted(InsertIndex(x, s))
    decreases |s|, 1
  {
    if s != [] && IndexOfKey(x.0) > IndexOfKey(s[0].0) {
      InsertIndexSortedLater(x, s);
    }
  }

  /** An entry with a larger index than the first goes into the rest, which stays above the first. */
  lemma {:induction false} InsertIndexSortedLater<V>(x: (string, V), s: seq<(string, V)>)
    requires IsArrayIndex(x.0) && IndexEntriesSorted(s) && s != [] && IndexOfKey(x.0) > IndexOfKey(s[0].0)
    ensures IndexEntriesSorted(InsertIndex(x, s))
    decreases |s|, 0
  {
    var t := InsertIndex(x, s[1..]);
    InsertIndexSorted(x, s[1..]);
    InsertIndexBound(x, s[1..], IndexOfKey(s[0].0));
    assert InsertIndex(x, s) == [s[0]] + t;
  }

  /** Array-index entries in ascending index order (insertion sort). */
  function SortIndexEntries<V>(s: seq<(string, V)>): (r: seq<(string, V)>)
    requires forall j :: 0 <= j < |s| ==> IsArrayIndex(s[j].0)
    ensures multiset(r) == multiset(s) && |r| == |s|
    ensures IndexEntriesSorted(r)
  {
    if s == [] then []
    else
      var t := SortIndexEntries(s[1..]);
      InsertIndexSorted(s[0], t);
      assert s == [s[0]] + s[1..];
      InsertIndex(s[0], t)
  }

  function IndexEntries<V>(d: Dict<string, V>): (r: Dict<string, V>)
    ensures forall j :: 0 <= j < |r| ==> IsArrayIndex(r[j].0)
  {
    if d == [] then [] else (if IsArrayIndex(d[0].0) then [d[0]] else []) + IndexEntries(d[1..])
  }

  function OtherEntries<V>(d: Dict<string, V>): (r: Dict<string, V>)
    ensures forall j :: 0 <= j < |r| ==> !IsArrayIndex(r[j].0)
  {
    if d == [] then [] else (if IsArrayIndex(d[0].0) then [] else [d[0]]) + OtherEntries(d[1..])
  }

  lemma {:induction false} SplitEntries<V>(d: Dict<string, V>)
    ensures multiset(IndexEntries(d)) + multiset(OtherEntries(d)) == multiset(d)
  {
    if d != [] {
      SplitEntries(d[1..]);
      assert d == [d[0]] + d[1..];
    }
  }

  /** The order a for-in loop visits an object's entries: array indices ascending, then the other keys in insertion order. */
  function JsOrder<V>(d: Dict<string, V>): (r: Dict<string, V>)
    ensures multiset(r) == multiset(d) && |r| == |d|
  {
    SplitEntries(d);
    var r := SortIndexEntries(IndexEntries(d)) + OtherEntries(d);
    assert |r| == |multiset(r)| == |multiset(d)| == |d|;
    r
  }

  /** The order is the one JavaScript specifies: indices first and ascending, every other key after them. */
  lemma JsOrderShape<V>(d: Dict<string, V>)
    ensures var r := JsOrder(d);
      exists n :: 0 <= n <= |r|
        && IndexEntriesSorted(r[..n])
        && (forall j :: n <= j < |r| ==> !IsArrayIndex(r[j].0))
        && r[n..] == OtherEntries(d)
  {
    var s := SortIndexEntries(IndexEntries(d));
    var r := JsOrder(d);
    assert r == s + OtherEntries(d);
    assert r[..|s|] == s && r[|s|..] == OtherEntries(d);
  }

  /** The keys in for-in order. */
  function OwnKeys<V>(d: Dict<string, V>): seq<string>
  {
    Keys(JsOrder(d))
  }

  lemma OwnKeysHas<V>(d: Dict<string, V>, k: string)
    ensures k in OwnKeys(d) <==> Has(d, k)
  {
    PermutedKeys(d, JsOrder(d), k);
  }

  /** A reordering of a dict has the same keys. */
  lemma PermutedKeys<V>(d: Dict<string, V>, r: Dict<string, V>, k: string)
    requires multiset(r) == multiset(d)
    ensures k in Keys(r) <==> Has(d, k)
  {
    if k in Keys(r) {
      var i :| 0 <= i < |r| && Keys(r)[i] == k;
      assert r[i] in multiset(d);
      var j :| 0 <= j < |d| && d[j] == r[i];
    }
    if Has(d, k) {
      var j :| 0 <= j < |d| && d[j].0 == k;
      assert d[j] in multiset(r);
      var i :| 0 <= i < |r| && r[i] == d[j];
      assert Keys(r)[i] == k;
    }
  }

  // ---------------------------------------------------------------------
  // flatten(data)

  /** `prop ? prop + "." + p : p`. */
  function ChildProp(prop: string, s: string): string
  {
    if prop != "" then prop + "." + s else s
  }

  /** The child the loop visits `i`-th, and the name it is visited under. */
  function JsChild<A>(e: Tree<A>, i: nat): Tree<A>
    requires !e.Leaf? && i < Width(e)
  {
    if e.Mapping? then e.entries[i].1 else e.items[i]
  }

  function JsName<A>(e: Tree<A>, i: nat): string
    requires !e.Leaf? && i < Width(e)
  {
    if e.Mapping? then e.entries[i].0 else NatToString(i)
  }

  /** The assignments recurse(cur, prop) makes to the result object, in order: every key written starts with `prop`. */
  function Writes(cur: Tree<Prim>, prop: string): (r: seq<(string, Flat)>)
    ensures |r| > 0
    ensures forall i :: 0 <= i < |r| ==> prop <= r[i].0
    decreases cur, 1
  {
    match cur
    case Leaf(p) => [(prop, Scalar(p))]
    case Sequence(xs) => if |xs| == 0 then [(prop, EmptyArray)] else WritesUpTo(cur, prop, |xs|)
    case Mapping(es) => if |es| == 0 then [(prop, EmptyObject)] else WritesUpTo(cur, prop, |es|)
  }

  /** The assignments the loop over the first `n` children makes. */
  function WritesUpTo(cur: Tree<Prim>, prop: string, n: nat): (r: seq<(string, Flat)>)
    requires n <= Width(cur)
    ensures n > 0 ==> |r| > 0
    ensures forall i :: 0 <= i < |r| ==> prop <= r[i].0
    decreases cur, 0, n
  {
    if n == 0 then []
    else
      var a := WritesUpTo(cur, prop, n - 1);
      var c := ChildProp(prop, JsName(cur, n - 1));
      var b := Writes(JsChild(cur, n - 1), c);
      assert prop <= c;
      assert forall i :: 0 <= i < |b| ==> prop <= b[i].0 by {
        forall i | 0 <= i < |b| ensures prop <= b[i].0 { assert c <= b[i].0; }
      }
      a + b
  }

  /** The writes of child `i` extend the writes of the children before it. */
  lemma LoopStep(cur: Tree<Prim>, prop: string, i: nat, base: Dict<string, Flat>, mid: Dict<string, Flat>, res: Dict<string, Flat>)
    requires !cur.Leaf? && i < Width(cur)
    requires mid == Update(base, WritesUpTo(cur, prop, i))
    requires res == Update(mid, Writes(JsChild(cur, i), ChildProp(prop, JsName(cur, i))))
    ensures res == Update(base, WritesUpTo(cur, prop, i + 1))
  {
    UpdateAppend(base, WritesUpTo(cur, prop, i), Writes(JsChild(cur, i), ChildProp(prop, JsName(cur, i))));
  }

  /** Once the loop has visited every child, its writes are all of them, but for the marker an empty container gets. */
  lemma CloseLoop(cur: Tree<Prim>, prop: string, base: Dict<string, Flat>, res: Dict<string, Flat>)
    requires !cur.Leaf? && res == Update(base, WritesUpTo(cur, prop, Width(cur)))
    ensures Width(cur) > 0 ==> res == Update(base, Writes(cur, prop))
    ensures Width(cur) == 0 ==> Put(res, prop, if cur.Mapping? then EmptyObject else EmptyArray) == Update(base, Writes(cur, prop))
  {
    if Width(cur) == 0 {
      var m := if cur.Mapping? then EmptyObject else EmptyArray;
      assert Writes(cur, prop) == [(prop, m)];
      assert Update(base, [(prop, m)]) == Update(Put(base, prop, m), []);
    }
  }

  class Flattener {
    var result: Dict<string, Flat>

    constructor()
      ensures result == []
    {
      result := [];
    }

    /** recurse(cur, prop): the result object receives the assignments Writes lists. */
    method Recurse(cur: Tree<Prim>, prop: string)
      modifies this
      ensures result == Update(old(result), Writes(cur, prop))
      decreases cur, 2
    {
      if cur.Leaf? {
        result := Put(result, prop, Scalar(cur.a));
      } else if cur.Sequence? {
        RecurseArray(cur, prop);
      } else {
        RecurseObject(cur, prop);
      }
    }

    /** One turn of either loop: recurse into child `i` under its name. */
    method VisitChild(cur: Tree<Prim>, prop: string, i: nat, ghost base: Dict<string, Flat>)
      requires !cur.Leaf? && i < Width(cur)
      requires result == Update(base, WritesUpTo(cur, prop, i))
      modifies this
      ensures result == Update(base, WritesUpTo(cur, prop, i + 1))
      decreases cur, 0
    {
      ghost var mid := result;
      Recurse(JsChild(cur, i), ChildProp(prop, JsName(cur, i)));
      LoopStep(cur, prop, i, base, mid, result);
    }

    /** The array branch: every element under prop.i, then [] when there is none. */
    method RecurseArray(cur: Tree<Prim>, prop: string)
      requires cur.Sequence?
      modifies this
      ensures result == Update(old(result), Writes(cur, prop))
      decreases cur, 1
    {
      var xs := cur.items;
      var i := 0;
      while i < |xs|
        invariant 0 <= i <= |xs|
        invariant result == Update(old(result), WritesUpTo(cur, prop, i))
      {
        VisitChild(cur, prop, i, old(result));
        i := i + 1;
      }
      CloseLoop(cur, prop, old(result), result);
      if |xs| == 0 {
        result := Put(result, prop, EmptyArray);
      }
    }

    /** The object branch: every property in for-in order under prop.p, then {} when there is none. */
    method RecurseObject(cur: Tree<Prim>, prop: string)
      requires cur.Mapping?
      modifies this
      ensures result == Update(old(result), Writes(cur, prop))
      decreases cur, 1
    {
      var isEmpty := true;
      var i := 0;
      while i < Width(cur)
        invariant 0 <= i <= Width(cur)
        invariant result == Update(old(result), WritesUpTo(cur, prop, i))
        invariant isEmpty == (i < 1)
      {
        isEmpty := false;
        VisitChild(cur, prop, i, old(result));
        i := i + 1;
      }
      CloseLoop(cur, prop, old(result), result);
      if isEmpty {
        result := Put(result, prop, EmptyObject);
      }
    }
  }

  /** flatten(data) as a value: the writes of recurse(data, "") applied to an empty object, so its keys are exactly the written keys. */
  function FlattenSpec(data: Tree<Prim>): (r: Dict<string, Flat>)
    ensures forall k :: Has(r, k) <==> k in Keys(Writes(data, ""))
  {
    var w := Writes(data, "");
    assert forall k :: Has(Update([], w), k) <==> k in Keys(w) by {
      forall k ensures Has(Update([], w), k) <==> k in Keys(w) { UpdateHas([], w, k); }
    }
    Update([], w)
  }

  /** flatten(data). */
  method JsFlattenData(data: Tree<Prim>) returns (r: Dict<string, Flat>)
    ensures r == FlattenSpec(data)
  {
    var f := new Flattener();
    f.Recurse(data, "");
    r := f.result;
  }

  /** A key of the result holds its last write. */
  lemma FlattenLastWrite(data: Tree<Prim>, i: nat)
    requires i < |Writes(data, "")|
    requires forall j :: i < j < |Writes(data, "")| ==> Writes(data, "")[j].0 != Writes(data, "")[i].0
    ensures Get(FlattenSpec(data), Writes(data, "")[i].0) == Some(Writes(data, "")[i].1)
  {
    UpdateLast([], Writes(data, ""), i);
  }

  /** Unlike util.flatten, an empty array is recorded under its key. */
  lemma EmptyArrayRecorded(k: string)
    requires k != ""
    ensures Writes(Mapping([(k, Sequence([]))]), "") == [(k, EmptyArray)]
    ensures UtilFlatten(Tree<Prim>.Mapping([(k, Sequence([]))]), ".") == []
  {
    var e: Tree<Prim> := Sequence([]);
    var d: Tree<Prim> := Mapping([(k, e)]);
    assert Writes(e, k) == [(k, EmptyArray)];
    assert WritesUpTo(d, "", 1) == WritesUpTo(d, "", 0) + Writes(e, ChildProp("", k));
    assert UFlat(e, k, ".") == UFlatFrom(e, k, ".", 0) == [];
    assert UFlatFrom(d, "", ".", 0) == PrefixKeys("", UFlat(e, k, ".")) + UFlatFrom(d, "", ".", 1);
  }

  // ---------------------------------------------------------------------
  // Against util.flatten

  /** No empty array or object anywhere. */
  ghost predicate NoEmptyContainers<A>(e: Tree<A>)
    decreases e
  {
    match e
    case Leaf(_) => true
    case Mapping(es) => es != [] && forall i :: 0 <= i < |es| ==> NoEmptyContainers(es[i].1)
    case Sequence(xs) => xs != [] && forall i :: 0 <= i < |xs| ==> NoEmptyContainers(xs[i])
  }

  /** The key recurse builds for a leaf at `path` below `prop`. */
  function JsKey(prop: string, path: seq<Comp>): string
    decreases path
  {
    if path == [] then prop else JsKey(ChildProp(prop, CompStr(path[0])), path[1..])
  }

  function JsRendered(prop: string, ps: seq<(seq<Comp>, Prim)>): (r: seq<(string, Flat)>)
    ensures |r| == |ps| && forall j :: 0 <= j < |ps| ==> r[j] == (JsKey(prop, ps[j].0), Scalar(ps[j].1))
  {
    if ps == [] then [] else [(JsKey(prop, ps[0].0), Scalar(ps[0].1))] + JsRendered(prop, ps[1..])
  }

  lemma JsRenderedAppend(prop: string, a: seq<(seq<Comp>, Prim)>, b: seq<(seq<Comp>, Prim)>)
    ensures JsRendered(prop, a + b) == JsRendered(prop, a) + JsRendered(prop, b)
  {
    var l := JsRendered(prop, a + b);
    var r := JsRendered(prop, a) + JsRendered(prop, b);
    assert |l| == |r|;
    forall j | 0 <= j < |l| ensures l[j] == r[j] {
      if j < |a| { assert (a + b)[j] == a[j]; } else { assert (a + b)[j] == b[j - |a|]; }
    }
  }

  lemma JsRenderedUnder(prop: string, c: Comp, ps: seq<(seq<Comp>, Prim)>)
    ensures JsRendered(prop, Under(c, ps)) == JsRendered(ChildProp(prop, CompStr(c)), ps)
  {
    var l := JsRendered(prop, Under(c, ps));
    var r := JsRendered(ChildProp(prop, CompStr(c)), ps);
    forall j | 0 <= j < |ps| ensures l[j] == r[j] {
      assert ([c] + ps[j].0)[0] == c && ([c] + ps[j].0)[1..] == ps[j].0;
    }
  }

  lemma {:induction false} LeavesUpTo<A>(e: Tree<A>, n: nat)
    requires n < Width(e)
    ensures LeavesFrom(e, 0) == LeavesUpToRef(e, n) + Under(CompAt(e, n), Leaves(ChildAt(e, n))) + LeavesFrom(e, n + 1)
    decreases n
  {
    LeavesFromStep(e, n);
    if n > 0 {
      var m: nat := n - 1;
      LeavesUpTo(e, m);
      LeavesUpToRefUnfold(e, m, n);
      var a := LeavesUpToRef(e, m);
      var u := Under(CompAt(e, m), Leaves(ChildAt(e, m)));
      var v := Under(CompAt(e, n), Leaves(ChildAt(e, n)));
      var rest := LeavesFrom(e, n + 1);
      assert a + u + (v + rest) == (a + u) + v + rest;
    } else {
      assert LeavesUpToRef(e, 0) == [];
    }
  }

  /** The leaves under the first `n` children. */
  function LeavesUpToRef<A>(e: Tree<A>, n: nat): seq<(seq<Comp>, A)>
    requires n <= Width(e)
  {
    if n == 0 then [] else LeavesUpToRef(e, n - 1) + Under(CompAt(e, n - 1), Leaves(ChildAt(e, n - 1)))
  }

  lemma LeavesAll<A>(e: Tree<A>)
    requires !e.Leaf?
    ensures Leaves(e) == LeavesUpToRef(e, Width(e))
  {
    if Width(e) > 0 {
      LeavesUpTo(e, Width(e) - 1);
    }
  }

  /** On values without empty containers, recurse writes one scalar per leaf, in the reference order. */
  lemma {:induction false} WritesLeaves(cur: Tree<Prim>, prop: string)
    requires NoEmptyContainers(cur)
    ensures Writes(cur, prop) == JsRendered(prop, Leaves(cur))
    decreases cur, 1
  {
    if !cur.Leaf? {
      WritesUpToLeaves(cur, prop, Width(cur));
      LeavesAll(cur);
    }
  }

  lemma {:induction false} WritesUpToLeaves(cur: Tree<Prim>, prop: string, n: nat)
    requires !cur.Leaf? && n <= Width(cur) && NoEmptyContainers(cur)
    ensures WritesUpTo(cur, prop, n) == JsRendered(prop, LeavesUpToRef(cur, n))
    decreases cur, 0, n
  {
    if n > 0 {
      var m: nat := n - 1;
      WritesUpToLeaves(cur, prop, m);
      LeavesUpToRefUnfold(cur, m, n);
      JsRenderedAppend(prop, LeavesUpToRef(cur, m), Under(CompAt(cur, m), Leaves(ChildAt(cur, m))));
      ChildWritesRendered(cur, prop, m);
      WritesUpToUnfold(cur, prop, m, n);
    }
  }

  lemma WritesUpToUnfold(cur: Tree<Prim>, prop: string, m: nat, n: nat)
    requires !cur.Leaf? && n == m + 1 && n <= Width(cur)
    ensures WritesUpTo(cur, prop, n) == WritesUpTo(cur, prop, m) + Writes(JsChild(cur, m), ChildProp(prop, JsName(cur, m)))
  {
  }

  lemma LeavesUpToRefUnfold<A>(e: Tree<A>, m: nat, n: nat)
    requires n == m + 1 && n <= Width(e)
    ensures LeavesUpToRef(e, n) == LeavesUpToRef(e, m) + Under(CompAt(e, m), Leaves(ChildAt(e, m)))
  {
  }

  /** The writes of child `i` are its leaves rendered under the parent's name. */
  lemma {:induction false} ChildWritesRendered(cur: Tree<Prim>, prop: string, i: nat)
    requires !cur.Leaf? && i < Width(cur) && NoEmptyContainers(cur)
    ensures Writes(JsChild(cur, i), ChildProp(prop, JsName(cur, i))) == JsRendered(prop, Under(CompAt(cur, i), Leaves(ChildAt(cur, i))))
    decreases cur, 0, i
  {
    var c := CompAt(cur, i);
    var child := JsChild(cur, i);
    assert child == ChildAt(cur, i) && JsName(cur, i) == CompStr(c);
    JsRenderedUnder(prop, c, Leaves(child));
    WritesLeaves(child, ChildProp(prop, JsName(cur, i)));
  }

  lemma {:induction false} JsKeyRender(x: string, s: string, path: seq<Comp>)
    requires s != "" && NonEmptyComps(path)
    ensures JsKey(x + s, path) == x + RenderKey(s, path, ".")
    decreases path
  {
    if path != [] {
      assert ChildProp(x + s, CompStr(path[0])) == (x + s + ".") + CompStr(path[0]);
      JsKeyRender(x + s + ".", CompStr(path[0]), path[1..]);
    }
  }

  /** With every key non-empty, the JavaScript and util.flatten keys of a leaf agree. */
  lemma JsKeyIsUtilKey(path: seq<Comp>)
    requires NonEmptyComps(path)
    ensures JsKey("", path) == RenderKey("", path, ".")
  {
    if path != [] {
      assert ChildProp("", CompStr(path[0])) == "" + CompStr(path[0]);
      JsKeyRender("", CompStr(path[0]), path[1..]);
    }
  }

  /** The j-th write of flatten.js is the j-th pair of util.flatten(d, '.') on values without empty containers or empty keys. */
  lemma JsMatchesUtil(d: Tree<Prim>, j: nat)
    requires NoEmptyContainers(d)
    requires j < |Leaves(d)| && NonEmptyComps(Leaves(d)[j].0)
    ensures j < |Writes(d, "")| && j < |UtilFlatten(d, ".")|
    ensures Writes(d, "")[j] == (UtilFlatten(d, ".")[j].0, Scalar(UtilFlatten(d, ".")[j].1))
  {
    WritesLeaves(d, "");
    JsKeyIsUtilKey(Leaves(d)[j].0);
  }

  // ---------------------------------------------------------------------
  // compareDict(a, b)

  /** JavaScript truthiness of a stored value. */
  predicate Truthy(v: Flat)
  {
    match v
    case Scalar(p) =>
      (match p
       case JNull => false
       case JUndefined => false
       case JBool(b) => b
       case JNum(n) => n != 0
       case JStr(s) => s != "")
    case _ => true
  }

  /** Number(s) for the integer forms: blank is 0, optional sign and decimal digits, or 0x and hex digits; None is NaN or a non-integer. */
  function ToNumber(s: string): Option<int>
  {
    var t := JsTrim(s);
    if t == "" then Some(0)
    else if |t| >= 2 && t[0] == '0' && (t[1] == 'x' || t[1] == 'X') then
      var h := t[2..];
      if h != [] && forall i :: 0 <= i < |h| ==> IsHexDigit(h[i]) then Some(HexDigitsValue(h)) else None
    else if t[0] == '-' || t[0] == '+' then
      var body := t[1..];
      var v: int := if AllDigits(body) then DigitsValue(body) else 0;
      if AllDigits(body) then Some(if t[0] == '-' then -v else v) else None
    else if AllDigits(t) then Some(DigitsValue(t))
    else None
  }

  function BoolCount(p: Prim): nat { if p.JBool? then 1 else 0 }

  function BoolNumber(b: bool): Prim { JNum(if b then 1 else 0) }

  /** `x == y` on primitives (the abstract equality comparison). */
  predicate PrimLooseEq(x: Prim, y: Prim)
    decreases BoolCount(x) + BoolCount(y)
  {
    if (x.JNull? || x.JUndefined?) || (y.JNull? || y.JUndefined?) then
      (x.JNull? || x.JUndefined?) && (y.JNull? || y.JUndefined?)
    else if x.JBool? && y.JBool? then x.b == y.b
    else if x.JBool? then PrimLooseEq(BoolNumber(x.b), y)
    else if y.JBool? then PrimLooseEq(x, BoolNumber(y.b))
    else
      match (x, y)
      case (JNum(a), JNum(b)) => a == b
      case (JStr(a), JStr(b)) => a == b
      case (JNum(a), JStr(b)) => ToNumber(b) == Some(a)
      case (JStr(a), JNum(b)) => ToNumber(a) == Some(b)
      case _ => false
  }

  /** ToPrimitive of the empty containers: String([]) and String({}). */
  function ObjectPrimitive(v: Flat): Prim
    requires !v.Scalar?
  {
    if v.EmptyArray? then JStr("") else JStr("[object Object]")
  }

  /**
   * `fa[k] != fb[k]`, negated: two primitives compare loosely, an object
   * equals a primitive through its primitive value, and two objects are
   * equal only when they are the same object, which two flatten calls
   * never share.
   */
  predicate LooseEq(x: Flat, y: Flat)
  {
    match (x, y)
    case (Scalar(p), Scalar(q)) => PrimLooseEq(p, q)
    case (Scalar(p), _) => !(p.JNull? || p.JUndefined?) && PrimLooseEq(p, ObjectPrimitive(y))
    case (_, Scalar(q)) => !(q.JNull? || q.JUndefined?) && PrimLooseEq(ObjectPrimitive(x), q)
    case _ => false
  }

  /** String concatenation of a stored value. */
  function Show(v: Flat): string
  {
    match v
    case Scalar(p) =>
      (match p
       case JNull => "null"
       case JUndefined => "undefined"
       case JBool(b) => if b then "true" else "false"
       case JNum(n) => JsNumberToString(n)
       case JStr(s) => s)
    case EmptyArray => ""
    case EmptyObject => "[object Object]"
  }

  /** `fb[k]`, undefined when `k` is not a key. */
  function Lookup1(f: Dict<string, Flat>, k: string): Flat
  {
    Get(f, k).GetOr(Scalar(JUndefined))
  }

  /** The first loop: a "Missing in a" line for each of ks that fa lacks. */
  function MissingInA(fa: Dict<string, Flat>, ks: seq<string>): seq<string>
  {
    if ks == [] then []
    else MissingInA(fa, ks[..|ks| - 1]) + (if Has(fa, ks[|ks| - 1]) then [] else ["Missing in a: " + ks[|ks| - 1]])
  }

  /** What the second loop adds for one key of fa. */
  function KeyErrors(fa: Dict<string, Flat>, fb: Dict<string, Flat>, k: string, same: (Flat, Flat) -> bool): seq<string>
  {
    var x := Lookup1(fa, k);
    var y := Lookup1(fb, k);
    (if Has(fb, k) then [] else ["Missing in b: " + k])
    + (if Truthy(x) && Truthy(y) && !same(x, y) then ["Different: " + k + ": " + Show(x) + " <> " + Show(y)] else [])
  }

  function DiffErrors(fa: Dict<string, Flat>, fb: Dict<string, Flat>, ks: seq<string>, same: (Flat, Flat) -> bool): seq<string>
  {
    if ks == [] then [] else DiffErrors(fa, fb, ks[..|ks| - 1], same) + KeyErrors(fa, fb, ks[|ks| - 1], same)
  }

  /** compareDict's error list for flattened values fa and fb: no errors means the two have the same keys. */
  function CompareFlat(fa: Dict<string, Flat>, fb: Dict<string, Flat>, same: (Flat, Flat) -> bool): (r: seq<string>)
    ensures r == [] ==> forall k :: Has(fa, k) <==> Has(fb, k)
  {
    var missing := MissingInA(fa, OwnKeys(fb));
    var diff := DiffErrors(fa, fb, OwnKeys(fa), same);
    if missing + diff == [] then
      assert missing == [] && diff == [];
      MissingInANone(fa, OwnKeys(fb));
      DiffErrorsNone(fa, fb, OwnKeys(fa), same);
      assert forall k :: Has(fa, k) <==> Has(fb, k) by {
        forall k ensures Has(fa, k) <==> Has(fb, k) { OwnKeysHas(fa, k); OwnKeysHas(fb, k); }
      }
      missing + diff
    else missing + diff
  }

  /** compareDict(a, b) as written. */
  function CompareSpec(a: Tree<Prim>, b: Tree<Prim>): seq<string>
  {
    CompareFlat(FlattenSpec(a), FlattenSpec(b), LooseEq)
  }

  /** The first loop of compareDict: every key of fb that fa lacks. */
  method MissingLoop(fa: Dict<string, Flat>, kb: seq<string>) returns (errors: seq<string>)
    ensures errors == MissingInA(fa, kb)
  {
    errors := [];
    for i := 0 to |kb|
      invariant errors == MissingInA(fa, kb[..i])
    {
      assert kb[..i + 1][..i] == kb[..i];
      if !Has(fa, kb[i]) {
        errors := errors + ["Missing in a: " + kb[i]];
      }
    }
    assert kb[..|kb|] == kb;
  }

  /** The second loop of compareDict: keys of fa that fb lacks, and truthy values that differ. */
  method DiffLoop(fa: Dict<string, Flat>, fb: Dict<string, Flat>, ka: seq<string>) returns (errors: seq<string>)
    ensures errors == DiffErrors(fa, fb, ka, LooseEq)
  {
    errors := [];
    for i := 0 to |ka|
      invariant errors == DiffErrors(fa, fb, ka[..i], LooseEq)
    {
      assert ka[..i + 1][..i] == ka[..i];
      var k := ka[i];
      if !Has(fb, k) {
        errors := errors + ["Missing in b: " + k];
      }
      var x := Lookup1(fa, k);
      var y := Lookup1(fb, k);
      if Truthy(x) && Truthy(y) && !LooseEq(x, y) {
        errors := errors + ["Different: " + k + ": " + Show(x) + " <> " + Show(y)];
      }
    }
    assert ka[..|ka|] == ka;
  }

  /** compareDict(a, b). */
  method CompareDict(a: Tree<Prim>, b: Tree<Prim>) returns (errors: seq<string>)
    ensures errors == CompareSpec(a, b)
  {
    var fa := JsFlattenData(a);
    var fb := JsFlattenData(b);
    var missing := MissingLoop(fa, OwnKeys(fb));
    var diff := DiffLoop(fa, fb, OwnKeys(fa));
    errors := missing + diff;
  }

  lemma {:induction false} MissingInANone(fa: Dict<string, Flat>, ks: seq<string>)
    requires MissingInA(fa, ks) == []
    ensures forall k :: k in ks ==> Has(fa, k)
    decreases |ks|
  {
    if ks != [] {
      MissingInANone(fa, ks[..|ks| - 1]);
      forall k | k in ks ensures Has(fa, k) {
        if k != ks[|ks| - 1] {
          var i :| 0 <= i < |ks| && ks[i] == k;
          assert ks[..|ks| - 1][i] == k;
        }
      }
    }
  }

  lemma {:induction false} DiffErrorsNone(fa: Dict<string, Flat>, fb: Dict<string, Flat>, ks: seq<string>, same: (Flat, Flat) -> bool)
    requires DiffErrors(fa, fb, ks, same) == []
    ensures forall k :: k in ks ==> Has(fb, k)
    decreases |ks|
  {
    if ks != [] {
      DiffErrorsNone(fa, fb, ks[..|ks| - 1], same);
      forall k | k in ks ensures Has(fb, k) {
        if k != ks[|ks| - 1] {
          var i :| 0 <= i < |ks| && ks[i] == k;
          assert ks[..|ks| - 1][i] == k;
        }
      }
    }
  }

  /** A key only one side has is reported as missing on the other. */
  lemma {:induction false} MissingReported(fa: Dict<string, Flat>, ks: seq<string>, i: nat)
    requires i < |ks| && !Has(fa, ks[i])
    ensures "Missing in a: " + ks[i] in MissingInA(fa, ks)
    decreases |ks|
  {
    if i < |ks| - 1 {
      assert ks[..|ks| - 1][i] == ks[i];
      MissingReported(fa, ks[..|ks| - 1], i);
    }
  }

  // ---------------------------------------------------------------------
  // Comparing a value with itself

  /** As written, a value holding an empty array is reported as different from itself. */
  lemma SelfCompareReportsEmpty()
    ensures CompareSpec(Mapping([("x", Sequence([]))]), Mapping([("x", Sequence([]))])) == ["Different: x:  <> "]
  {
    var d: Tree<Prim> := Mapping([("x", Sequence([]))]);
    EmptyArrayRecorded("x");
    assert FlattenSpec(d) == [("x", EmptyArray)];
    SingleEmptyArray();
  }

  /** The flat dict {x: []} compared with itself reports x as different. */
  lemma SingleEmptyArray()
    ensures CompareFlat([("x", EmptyArray)], [("x", EmptyArray)], LooseEq) == ["Different: x:  <> "]
  {
    var f: Dict<string, Flat> := [("x", EmptyArray)];
    OwnKeysSingle("x", EmptyArray);
    SingleMissing();
    SingleDiff();
    assert CompareFlat(f, f, LooseEq) == MissingInA(f, ["x"]) + DiffErrors(f, f, ["x"], LooseEq);
  }

  lemma SingleMissing()
    ensures MissingInA([("x", EmptyArray)], ["x"]) == []
  {
    var f: Dict<string, Flat> := [("x", EmptyArray)];
    var ks := ["x"];
    assert Has(f, "x") by { assert f[0].0 == "x"; }
    assert ks[..0] == [] && ks[0] == "x";
  }

  lemma SingleDiff()
    ensures DiffErrors([("x", EmptyArray)], [("x", EmptyArray)], ["x"], LooseEq) == ["Different: x:  <> "]
  {
    var f: Dict<string, Flat> := [("x", EmptyArray)];
    var ks := ["x"];
    assert ks[..0] == [] && ks[0] == "x";
    assert DiffErrors(f, f, ks, LooseEq) == [] + KeyErrors(f, f, "x", LooseEq);
    SingleKeyErrors();
  }

  lemma SingleKeyErrors()
    ensures KeyErrors([("x", EmptyArray)], [("x", EmptyArray)], "x", LooseEq) == ["Different: x:  <> "]
  {
    var f: Dict<string, Flat> := [("x", EmptyArray)];
    assert Has(f, "x") by { assert f[0].0 == "x"; }
    assert Lookup1(f, "x") == EmptyArray;
    assert "Different: " + "x" + ": " + "" + " <> " + "" == "Different: x:  <> ";
  }

  /** A one-entry dict whose key is not an array index has just that key. */
  lemma OwnKeysSingle<V>(k: string, v: V)
    requires !IsArrayIndex(k)
    ensures OwnKeys([(k, v)]) == [k]
  {
    var f := [(k, v)];
    assert f[1..] == [];
    assert IndexEntries(f[1..]) == [] && OtherEntries(f[1..]) == [];
    assert IndexEntries(f) == [] && OtherEntries(f) == [f[0]] + [];
    assert [f[0]] + [] == f;
    assert SortIndexEntries(IndexEntries(f)) == [];
    assert JsOrder(f) == f;
  }

  /** Corrected comparison: values that are equal as data are the same, otherwise compare loosely. */
  predicate SameValue(x: Flat, y: Flat)
  {
    x == y || LooseEq(x, y)
  }

  /** compareDict with the corrected comparison. */
  function CompareCorrected(a: Tree<Prim>, b: Tree<Prim>): seq<string>
  {
    CompareFlat(FlattenSpec(a), FlattenSpec(b), SameValue)
  }

  lemma {:induction false} MissingInASelf(f: Dict<string, Flat>, ks: seq<string>)
    requires forall k :: k in ks ==> Has(f, k)
    ensures MissingInA(f, ks) == []
    decreases |ks|
  {
    if ks != [] {
      MissingInASelf(f, ks[..|ks| - 1]);
      assert ks[|ks| - 1] in ks;
    }
  }

  lemma {:induction false} DiffErrorsSelf(f: Dict<string, Flat>, ks: seq<string>)
    requires forall k :: k in ks ==> Has(f, k)
    ensures DiffErrors(f, f, ks, SameValue) == []
    decreases |ks|
  {
    if ks != [] {
      DiffErrorsSelf(f, ks[..|ks| - 1]);
      assert ks[|ks| - 1] in ks;
    }
  }

  /** With the corrected comparison a value is never reported as different from itself. */
  lemma CorrectedSelfCompare(a: Tree<Prim>)
    ensures CompareCorrected(a, a) == []
  {
    var f := FlattenSpec(a);
    forall k | k in OwnKeys(f) ensures Has(f, k) { OwnKeysHas(f, k); }
    MissingInASelf(f, OwnKeys(f));
    DiffErrorsSelf(f, OwnKeys(f));
  }
}
