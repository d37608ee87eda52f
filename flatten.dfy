// Nested data and the two Python flatteners, flatten in metatab/util.py
// and Serializer.flatten in metatab/serialize.py. A value is a mapping
// (string keys, in iteration order), a list, or anything else, which both
// flatteners treat as a leaf. `Leaves` is the reference reading: every leaf
// with the path of keys and positions that leads to it, in iteration order.
module Flatten {
  import opened Wrappers
  import opened Text
  import opened ODict

  datatype Tree<A> = Leaf(a: A) | Mapping(entries: seq<(string, Tree<A>)>) | Sequence(items: seq<Tree<A>>)

  /** A path component: a mapping key, or a position in a list. */
  datatype Comp = Key(k: string) | Pos(i: nat)

  function Width<A>(e: Tree<A>): nat
  {
    match e
    case Leaf(_) => 0
    case Mapping(es) => |es|
    case Sequence(xs) => |xs|
  }

  /** The component that leads to the `i`-th child. */
  function CompAt<A>(e: Tree<A>, i: nat): Comp
    requires i < Width(e)
  {
    match e
    case Mapping(es) => Key(es[i].0)
    case Sequence(_) => Pos(i)
  }

  function ChildAt<A>(e: Tree<A>, i: nat): Tree<A>
    requires i < Width(e)
  {
    match e
    case Mapping(es) => es[i].1
    case Sequence(xs) => xs[i]
  }

  /** Python dicts: no mapping anywhere in the value repeats a key. */
  ghost predicate WellFormed<A>(e: Tree<A>)
    decreases e
  {
    match e
    case Leaf(_) => true
    case Mapping(es) => Distinct(es) && forall i :: 0 <= i < |es| ==> WellFormed(es[i].1)
    case Sequence(xs) => forall i :: 0 <= i < |xs| ==> WellFormed(xs[i])
  }

  /** The value at `path`, following keys into mappings and positions into lists. */
  function Lookup<A>(e: Tree<A>, path: seq<Comp>): Option<Tree<A>>
    decreases path
  {
    if path == [] then Some(e)
    else
      match (e, path[0])
      case (Mapping(es), Key(k)) =>
        (match Get(es, k)
         case None => None
         case Some(v) => Lookup(v, path[1..]))
      case (Sequence(xs), Pos(i)) => if i < |xs| then Lookup(xs[i], path[1..]) else None
      case _ => None
  }

  /** Each pair's path with `c` put in front. */
  function Under<A>(c: Comp, ps: seq<(seq<Comp>, A)>): (r: seq<(seq<Comp>, A)>)
    ensures |r| == |ps| && forall j :: 0 <= j < |ps| ==> r[j] == ([c] + ps[j].0, ps[j].1)
  {
    if ps == [] then [] else [([c] + ps[0].0, ps[0].1)] + Under(c, ps[1..])
  }

  /** Every leaf with its path, children in iteration order. */
  function Leaves<A>(e: Tree<A>): seq<(seq<Comp>, A)>
    decreases e
  {
    if e.Leaf? then [([], e.a)] else LeavesFrom(e, 0)
  }

  /** The leaves under the children of `e` from the `i`-th on. */
  function LeavesFrom<A>(e: Tree<A>, i: nat): seq<(seq<Comp>, A)>
    requires i <= Width(e)
    decreases e, Width(e) - i
  {
    if i == Width(e) then []
    else
      match e
      case Mapping(es) => Under(Key(es[i].0), Leaves(es[i].1)) + LeavesFrom(e, i + 1)
      case Sequence(xs) => Under(Pos(i), Leaves(xs[i])) + LeavesFrom(e, i + 1)
  }

  lemma LeavesFromStep<A>(e: Tree<A>, i: nat)
    requires i < Width(e)
    ensures LeavesFrom(e, i) == Under(CompAt(e, i), Leaves(ChildAt(e, i))) + LeavesFrom(e, i + 1)
  {
  }

  // ---------------------------------------------------------------------
  // The reference reading: one pair per leaf

  /** Every pair's path leads to a leaf holding the pair's value. */
  lemma {:induction false} LeavesSound<A>(e: Tree<A>, j: nat)
    requires WellFormed(e) && j < |Leaves(e)|
    ensures Lookup(e, Leaves(e)[j].0) == Some(Leaf(Leaves(e)[j].1))
    decreases e, 1
  {
    if !e.Leaf? {
      LeavesFromSound(e, 0, j);
    }
  }

  lemma {:induction false} LeavesFromSound<A>(e: Tree<A>, i: nat, j: nat)
    requires WellFormed(e) && !e.Leaf? && i <= Width(e) && j < |LeavesFrom(e, i)|
    ensures Lookup(e, LeavesFrom(e, i)[j].0) == Some(Leaf(LeavesFrom(e, i)[j].1))
    decreases e, 0, Width(e) - i
  {
    var c := CompAt(e, i);
    var block := Under(c, Leaves(ChildAt(e, i)));
    LeavesFromStep(e, i);
    if j < |block| {
      var q := Leaves(ChildAt(e, i))[j].0;
      assert LeavesFrom(e, i)[j] == ([c] + q, Leaves(ChildAt(e, i))[j].1);
      LookupChild(e, i, q);
      match e
      case Mapping(es) => LeavesSound(es[i].1, j);
      case Sequence(xs) => LeavesSound(xs[i], j);
    } else {
      assert LeavesFrom(e, i)[j] == LeavesFrom(e, i + 1)[j - |block|];
      LeavesFromSound(e, i + 1, j - |block|);
    }
  }

  /** Looking up below a child's component is looking up in that child. */
  lemma LookupChild<A>(e: Tree<A>, i: nat, q: seq<Comp>)
    requires i < Width(e) && (e.Mapping? ==> Distinct(e.entries))
    ensures Lookup(e, [CompAt(e, i)] + q) == Lookup(ChildAt(e, i), q)
  {
    var p := [CompAt(e, i)] + q;
    assert p[0] == CompAt(e, i) && p[1..] == q;
    if e.Mapping? {
      GetDistinct(e.entries, e.entries[i].0, i);
    }
  }

  lemma {:induction false} LeavesFromLater<A>(e: Tree<A>, i0: nat, i: nat, x: (seq<Comp>, A))
    requires i0 <= i <= Width(e) && x in LeavesFrom(e, i)
    ensures x in LeavesFrom(e, i0)
    decreases i - i0
  {
    if i0 < i {
      LeavesFromLater(e, i0 + 1, i, x);
      LeavesFromStep(e, i0);
    }
  }

  /** Every leaf of the value appears with its path. */
  lemma {:induction false} LeavesComplete<A>(e: Tree<A>, path: seq<Comp>, a: A)
    requires Lookup(e, path) == Some(Leaf(a))
    ensures (path, a) in Leaves(e)
    decreases path
  {
    if path == [] {
      assert Leaves(e) == [([], a)];
    } else {
      var i: nat;
      var sub := path[1..];
      match e {
        case Mapping(es) =>
          var k := path[0].k;
          var v := Get(es, k).value;
          i :| 0 <= i < |es| && es[i] == (k, v);
          LeavesComplete(es[i].1, sub, a);
        case Sequence(xs) =>
          i := path[0].i;
          LeavesComplete(xs[i], sub, a);
      }
      var q :| 0 <= q < |Leaves(ChildAt(e, i))| && Leaves(ChildAt(e, i))[q] == (sub, a);
      assert [path[0]] + sub == path;
      assert (path, a) in Under(CompAt(e, i), Leaves(ChildAt(e, i)));
      LeavesFromStep(e, i);
      LeavesFromLater(e, 0, i, (path, a));
    }
  }

  /** The paths in LeavesFrom(e, i) start with the component of a child numbered `i` or later. */
  lemma {:induction false} LeavesFromHeads<A>(e: Tree<A>, i: nat, j: nat)
    requires !e.Leaf? && i <= Width(e) && j < |LeavesFrom(e, i)|
    ensures LeavesFrom(e, i)[j].0 != []
    ensures exists k :: i <= k < Width(e) && LeavesFrom(e, i)[j].0[0] == CompAt(e, k)
    decreases Width(e) - i
  {
    LeavesFromStep(e, i);
    var block := Under(CompAt(e, i), Leaves(ChildAt(e, i)));
    if j < |block| {
      assert LeavesFrom(e, i)[j].0[0] == CompAt(e, i);
    } else {
      LeavesFromHeads(e, i + 1, j - |block|);
    }
  }

  ghost predicate DistinctPaths<A>(ps: seq<(seq<Comp>, A)>)
  {
    forall j1, j2 :: 0 <= j1 < j2 < |ps| ==> ps[j1].0 != ps[j2].0
  }

  lemma UnderDistinct<A>(c: Comp, ps: seq<(seq<Comp>, A)>)
    requires DistinctPaths(ps)
    ensures DistinctPaths(Under(c, ps))
  {
    var r := Under(c, ps);
    forall j1, j2 | 0 <= j1 < j2 < |r| ensures r[j1].0 != r[j2].0 {
      assert r[j1].0[1..] == ps[j1].0 && r[j2].0[1..] == ps[j2].0;
    }
  }

  /** No path occurs twice: with the two lemmas above, exactly one pair per leaf. */
  lemma {:induction false} LeavesDistinct<A>(e: Tree<A>)
    requires WellFormed(e)
    ensures DistinctPaths(Leaves(e))
    decreases e, 1
  {
    if !e.Leaf? {
      LeavesFromDistinct(e, 0);
    }
  }

  lemma {:induction false} LeavesFromDistinct<A>(e: Tree<A>, i: nat)
    requires WellFormed(e) && !e.Leaf? && i <= Width(e)
    ensures DistinctPaths(LeavesFrom(e, i))
    decreases e, 0, Width(e) - i
  {
    if i < Width(e) {
      LeavesFromStep(e, i);
      var c := CompAt(e, i);
      match e {
        case Mapping(es) => LeavesDistinct(es[i].1);
        case Sequence(xs) => LeavesDistinct(xs[i]);
      }
      UnderDistinct(c, Leaves(ChildAt(e, i)));
      LeavesFromDistinct(e, i + 1);
      var block := Under(c, Leaves(ChildAt(e, i)));
      var rest := LeavesFrom(e, i + 1);
      var all := LeavesFrom(e, i);
      forall j1, j2 | 0 <= j1 < j2 < |all| ensures all[j1].0 != all[j2].0 {
        if j1 < |block| && j2 >= |block| {
          assert all[j1].0[0] == c;
          LeavesFromHeads(e, i + 1, j2 - |block|);
          assert all[j2] == rest[j2 - |block|];
          var k :| i + 1 <= k < Width(e) && rest[j2 - |block|].0[0] == CompAt(e, k);
          match e {
            case Mapping(es) => assert es[i].0 != es[k].0;
            case Sequence(xs) =>
          }
        } else if j1 >= |block| {
          assert all[j1] == rest[j1 - |block|] && all[j2] == rest[j2 - |block|];
        }
      }
    }
  }

  /** Empty mappings and empty lists have no leaves. */
  lemma EmptyContainers<A>()
    ensures Leaves(Tree<A>.Mapping([])) == [] && Leaves(Tree<A>.Sequence([])) == []
  {
  }

  // ---------------------------------------------------------------------
  // metatab/util.py flatten(d, sep)

  /** `parent_key + sep if parent_key else ''`. */
  function Pre(pk: string, sep: string): string
  {
    if pk != "" then pk + sep else ""
  }

  function PrefixKeys<A>(p: string, ps: seq<(string, A)>): (r: seq<(string, A)>)
    ensures |r| == |ps| && forall j :: 0 <= j < |ps| ==> r[j] == (p + ps[j].0, ps[j].1)
  {
    if ps == [] then [] else [(p + ps[0].0, ps[0].1)] + PrefixKeys(p, ps[1..])
  }

  /** `_flatten(e, parent_key, sep)`: a leaf gives its parent key; a child's keys get the prefix. */
  function UFlat<A>(e: Tree<A>, pk: string, sep: string): seq<(string, A)>
    decreases e
  {
    if e.Leaf? then [(pk, e.a)] else UFlatFrom(e, pk, sep, 0)
  }

  function UFlatFrom<A>(e: Tree<A>, pk: string, sep: string, i: nat): seq<(string, A)>
    requires i <= Width(e)
    decreases e, Width(e) - i
  {
    if i == Width(e) then []
    else
      match e
      case Mapping(es) => PrefixKeys(Pre(pk, sep), UFlat(es[i].1, es[i].0, sep)) + UFlatFrom(e, pk, sep, i + 1)
      case Sequence(xs) => PrefixKeys(Pre(pk, sep), UFlat(xs[i], NatToString(i), sep)) + UFlatFrom(e, pk, sep, i + 1)
  }

  /** flatten(d, sep): one pair per leaf, in order, keyed by the leaf's path rendered with `sep`. */
  function UtilFlatten<A>(d: Tree<A>, sep: string): (r: seq<(string, A)>)
    ensures r == Rendered("", Leaves(d), sep)
  {
    UFlatLeaves(d, "", sep);
    UFlat(d, "", sep)
  }

  /** A component as str() writes it. */
  function CompStr(c: Comp): string
  {
    match c
    case Key(k) => k
    case Pos(i) => NatToString(i)
  }

  function StrPath(path: seq<Comp>): (r: seq<string>)
    ensures |r| == |path| && forall j :: 0 <= j < |path| ==> r[j] == CompStr(path[j])
  {
    if path == [] then [] else [CompStr(path[0])] + StrPath(path[1..])
  }

  /** The key util.flatten builds for a leaf at `path` below a parent key `pk`. */
  function RenderKey(pk: string, path: seq<Comp>, sep: string): string
    decreases path
  {
    if path == [] then pk else Pre(pk, sep) + RenderKey(CompStr(path[0]), path[1..], sep)
  }

  function Rendered<A>(pk: string, ps: seq<(seq<Comp>, A)>, sep: string): (r: seq<(string, A)>)
    ensures |r| == |ps| && forall j :: 0 <= j < |ps| ==> r[j] == (RenderKey(pk, ps[j].0, sep), ps[j].1)
  {
    if ps == [] then [] else [(RenderKey(pk, ps[0].0, sep), ps[0].1)] + Rendered(pk, ps[1..], sep)
  }

  lemma RenderedUnder<A>(pk: string, c: Comp, ps: seq<(seq<Comp>, A)>, sep: string)
    ensures Rendered(pk, Under(c, ps), sep) == PrefixKeys(Pre(pk, sep), Rendered(CompStr(c), ps, sep))
  {
    var l := Rendered(pk, Under(c, ps), sep);
    var r := PrefixKeys(Pre(pk, sep), Rendered(CompStr(c), ps, sep));
    forall j | 0 <= j < |ps| ensures l[j] == r[j] {
      assert ([c] + ps[j].0)[1..] == ps[j].0;
    }
  }

  lemma RenderedAppend<A>(pk: string, a: seq<(seq<Comp>, A)>, b: seq<(seq<Comp>, A)>, sep: string)
    ensures Rendered(pk, a + b, sep) == Rendered(pk, a, sep) + Rendered(pk, b, sep)
  {
    var l := Rendered(pk, a + b, sep);
    var r := Rendered(pk, a, sep) + Rendered(pk, b, sep);
    assert |l| == |r|;
    forall j | 0 <= j < |l| ensures l[j] == r[j] {
      if j < |a| { assert (a + b)[j] == a[j]; } else { assert (a + b)[j] == b[j - |a|]; }
    }
  }

  /** util.flatten gives one pair per leaf, in order, keyed by the rendered path. */
  lemma {:induction false} UFlatLeaves<A>(e: Tree<A>, pk: string, sep: string)
    ensures UFlat(e, pk, sep) == Rendered(pk, Leaves(e), sep)
    decreases e, 1
  {
    if !e.Leaf? {
      UFlatFromLeaves(e, pk, sep, 0);
    }
  }

  lemma {:induction false} UFlatFromLeaves<A>(e: Tree<A>, pk: string, sep: string, i: nat)
    requires !e.Leaf? && i <= Width(e)
    ensures UFlatFrom(e, pk, sep, i) == Rendered(pk, LeavesFrom(e, i), sep)
    decreases e, 0, Width(e) - i
  {
    if i < Width(e) {
      var c := CompAt(e, i);
      LeavesFromStep(e, i);
      RenderedAppend(pk, Under(c, Leaves(ChildAt(e, i))), LeavesFrom(e, i + 1), sep);
      RenderedUnder(pk, c, Leaves(ChildAt(e, i)), sep);
      match e {
        case Mapping(es) => UFlatLeaves(es[i].1, es[i].0, sep);
        case Sequence(xs) => UFlatLeaves(xs[i], NatToString(i), sep);
      }
      UFlatFromLeaves(e, pk, sep, i + 1);
    }
  }

  ghost predicate NonEmptyComps(path: seq<Comp>)
  {
    forall j :: 0 <= j < |path| ==> CompStr(path[j]) != ""
  }

  lemma {:induction false} RenderJoin(s: string, path: seq<Comp>, sep: string)
    requires s != "" && NonEmptyComps(path)
    ensures RenderKey(s, path, sep) == Join(sep, [s] + StrPath(path))
    decreases path
  {
    if path != [] {
      RenderJoin(CompStr(path[0]), path[1..], sep);
      assert ([s] + StrPath(path))[1..] == [CompStr(path[0])] + StrPath(path[1..]);
    }
  }

  /** When no component is empty, a leaf's key is its path's components joined with `sep`. */
  lemma UtilKeyIsJoin(path: seq<Comp>, sep: string)
    requires NonEmptyComps(path)
    ensures RenderKey("", path, sep) == Join(sep, StrPath(path))
  {
    if path != [] {
      RenderJoin(CompStr(path[0]), path[1..], sep);
      assert StrPath(path) == [CompStr(path[0])] + StrPath(path[1..]);
    }
  }

  /** A top-level leaf yields the single pair ('', v). */
  lemma TopLeaf<A>(a: A, sep: string)
    ensures UtilFlatten(Leaf(a), sep) == [("", a)]
  {
  }

  /** An empty key drops its separator: {'': {'a': v}} flattens to [('a', v)]. */
  lemma EmptyKeyNoSeparator<A>(v: A, sep: string)
    ensures UtilFlatten(Mapping([("", Mapping([("a", Leaf(v))]))]), sep) == [("a", v)]
  {
    var inner: Tree<A> := Mapping([("a", Leaf(v))]);
    assert UFlat(Leaf(v), "a", sep) == [("a", v)];
    assert UFlatFrom(inner, "", sep, 1) == [];
    assert PrefixKeys("", [("a", v)]) == [("a", v)] by { assert "" + "a" == "a"; }
    assert UFlat(inner, "", sep) == [("a", v)];
    var outer := Mapping([("", inner)]);
    assert UFlatFrom(outer, "", sep, 1) == [];
    assert UFlat(outer, "", sep) == PrefixKeys("", [("a", v)]);
  }

  // ---------------------------------------------------------------------
  // metatab/serialize.py Serializer.flatten(d, sep=None)

  function PrefixPaths<A>(p: seq<Comp>, ps: seq<(seq<Comp>, A)>): (r: seq<(seq<Comp>, A)>)
    ensures |r| == |ps| && forall j :: 0 <= j < |ps| ==> r[j] == (p + ps[j].0, ps[j].1)
  {
    if ps == [] then [] else [(p + ps[0].0, ps[0].1)] + PrefixPaths(p, ps[1..])
  }

  /** `_flatten(e, parent_key)` with tuple keys: a child's keys start with its key or position. */
  function SFlat<A>(e: Tree<A>, pk: seq<Comp>): seq<(seq<Comp>, A)>
    decreases e
  {
    if e.Leaf? then [(pk, e.a)] else SFlatFrom(e, pk, 0)
  }

  function SFlatFrom<A>(e: Tree<A>, pk: seq<Comp>, i: nat): seq<(seq<Comp>, A)>
    requires i <= Width(e)
    decreases e, Width(e) - i
  {
    if i == Width(e) then []
    else
      match e
      case Mapping(es) => PrefixPaths(pk, SFlat(es[i].1, [Key(es[i].0)])) + SFlatFrom(e, pk, i + 1)
      case Sequence(xs) => PrefixPaths(pk, SFlat(xs[i], [Pos(i)])) + SFlatFrom(e, pk, i + 1)
  }

  /** The key of a serializer pair: the path tuple, or its str() parts joined with `sep`. */
  datatype FlatKey = TupleKey(path: seq<Comp>) | StrKey(s: string)

  function KeyOf(path: seq<Comp>, sep: Option<string>): FlatKey
  {
    match sep
    case None => TupleKey(path)
    case Some(s) => StrKey(Join(s, StrPath(path)))
  }

  function Keyed<A>(ps: seq<(seq<Comp>, A)>, sep: Option<string>): (r: seq<(FlatKey, A)>)
    ensures |r| == |ps| && forall j :: 0 <= j < |ps| ==> r[j] == (KeyOf(ps[j].0, sep), ps[j].1)
  {
    if ps == [] then [] else [(KeyOf(ps[0].0, sep), ps[0].1)] + Keyed(ps[1..], sep)
  }

  /**
   * Serializer.flatten(d, sep): with sep=None the keys are the leaves' paths (tuples as long as
   * the leaf is deep); with a separator, their str() parts joined.
   */
  function SerializerFlatten<A>(d: Tree<A>, sep: Option<string>): (r: seq<(FlatKey, A)>)
    ensures r == Keyed(Leaves(d), sep)
  {
    SFlatLeaves(d, []);
    var ps := Leaves(d);
    assert PrefixPaths([], ps) == ps by {
      forall j | 0 <= j < |ps| ensures PrefixPaths([], ps)[j] == ps[j] { assert [] + ps[j].0 == ps[j].0; }
    }
    Keyed(SFlat(d, []), sep)
  }

  lemma PrefixPathsAppend<A>(p: seq<Comp>, a: seq<(seq<Comp>, A)>, b: seq<(seq<Comp>, A)>)
    ensures PrefixPaths(p, a + b) == PrefixPaths(p, a) + PrefixPaths(p, b)
  {
    var l := PrefixPaths(p, a + b);
    var r := PrefixPaths(p, a) + PrefixPaths(p, b);
    assert |l| == |r|;
    forall j | 0 <= j < |l| ensures l[j] == r[j] {
      if j < |a| { assert (a + b)[j] == a[j]; } else { assert (a + b)[j] == b[j - |a|]; }
    }
  }

  /** The tuple keys are exactly the leaves' paths below `pk`. */
  lemma {:induction false} SFlatLeaves<A>(e: Tree<A>, pk: seq<Comp>)
    ensures SFlat(e, pk) == PrefixPaths(pk, Leaves(e))
    decreases e, 1
  {
    if e.Leaf? {
      assert pk + [] == pk;
    } else {
      SFlatFromLeaves(e, pk, 0);
    }
  }

  lemma {:induction false} SFlatFromLeaves<A>(e: Tree<A>, pk: seq<Comp>, i: nat)
    requires !e.Leaf? && i <= Width(e)
    ensures SFlatFrom(e, pk, i) == PrefixPaths(pk, LeavesFrom(e, i))
    decreases e, 0, Width(e) - i
  {
    if i < Width(e) {
      var c := CompAt(e, i);
      LeavesFromStep(e, i);
      PrefixPathsAppend(pk, Under(c, Leaves(ChildAt(e, i))), LeavesFrom(e, i + 1));
      match e {
        case Mapping(es) => SFlatLeaves(es[i].1, [c]);
        case Sequence(xs) => SFlatLeaves(xs[i], [c]);
      }
      assert PrefixPaths([c], Leaves(ChildAt(e, i))) == Under(c, Leaves(ChildAt(e, i)));
      SFlatFromLeaves(e, pk, i + 1);
    }
  }

  /** The two flatteners agree whenever no key is the empty string. */
  lemma UtilMatchesSerializer<A>(d: Tree<A>, sep: string, j: nat)
    requires j < |Leaves(d)| && NonEmptyComps(Leaves(d)[j].0)
    ensures j < |UtilFlatten(d, sep)| && j < |SerializerFlatten(d, Some(sep))|
    ensures SerializerFlatten(d, Some(sep))[j] == (StrKey(UtilFlatten(d, sep)[j].0), UtilFlatten(d, sep)[j].1)
  {
    UtilKeyIsJoin(Leaves(d)[j].0, sep);
  }
}
