// TermInterpreter.link_terms and convert_to_dict of python/metatab/parser.py:
// terms are hung under their parents, and the tree is turned into nested
// dicts.
//
// Term objects point at their children; here the tree is an arena, a
// sequence of nodes whose children are indexes. Node 0 is the root, and a
// node is always added after its parent, so every child index is larger
// than its parent's and recursion down the tree terminates.
module LegacyDict {
  import opened Wrappers
  import opened Text
  import opened ODict
  import opened LegacyTerms

  /** A value of the converted document: a string or None, a dict, or a list. */
  datatype DVal = Str(s: Option<string>) | Obj(d: Dict<string, DVal>) | Lst(xs: seq<DVal>)

  /** Python truthiness of a value. */
  predicate Truthy(v: DVal)
  {
    match v
    case Str(s) => s.Some? && s.value != ""
    case Obj(d) => d != []
    case Lst(xs) => xs != []
  }

  datatype LNode = LNode(term: Term, children: seq<nat>)

  /** Every child comes after its parent and exists. */
  predicate Linked(nodes: seq<LNode>)
  {
    forall i, j :: 0 <= i < |nodes| && 0 <= j < |nodes[i].children| ==> i < nodes[i].children[j] < |nodes|
  }

  /** Term('Root', None). */
  const ROOT: Term := Term(NO_TERM, "root", None, [], None, None, None, false, "@value", "any", None)

  lemma RootIsNewTerm()
    ensures NewTerm("Root", "", [], None, None, None, false) == Ok(ROOT)
  {
    StripPlain("Root");
    assert Lower("Root") == "root";
    assert Lower(NO_TERM) == NO_TERM;
  }

  // ---------------------------------------------------------------------
  // link_terms

  /** The tree built so far and last_term_map, from a name to the node it last named. */
  datatype Links = Links(nodes: seq<LNode>, last: map<string, nat>)

  predicate LinksOk(l: Links)
  {
    |l.nodes| >= 1 && Linked(l.nodes) && forall k :: k in l.last ==> l.last[k] < |l.nodes|
  }

  /** The root alone, under the name NO_TERM. */
  function LinkInit(): (l: Links)
    ensures LinksOk(l)
  {
    Links([LNode(ROOT, [])], map[NO_TERM := 0])
  }

  /**
   * One term: its parent is whatever last_term_map holds for its parent
   * name (none is a ParserError); it is added as that node's last child;
   * unless it is an argument child or has an elided parent, it becomes
   * both the elided parent and the node of its own record name.
   */
  function LinkStep(l: Links, t: Term): (r: Result<Links>)
    requires LinksOk(l)
    ensures r.Err? <==> t.parentTerm !in l.last
    ensures r.Err? ==> r.error == ParserError
    ensures r.Ok? ==> LinksOk(r.value) && |r.value.nodes| == |l.nodes| + 1
                      && r.value.nodes[|l.nodes|] == LNode(t, [])
  {
    if t.parentTerm !in l.last then Err(ParserError)
    else
      var p := l.last[t.parentTerm];
      var n := |l.nodes|;
      var nodes := l.nodes[p := l.nodes[p].(children := l.nodes[p].children + [n])] + [LNode(t, [])];
      var last := if !t.isArgChild && t.parentTerm != ELIDED_TERM then l.last[ELIDED_TERM := n][t.recordTerm := n]
                  else l.last;
      Ok(Links(nodes, last))
  }

  /** The links after the terms `ts`, the first failure stopping it. */
  function LinkAll(l: Links, ts: seq<Term>): (r: Result<Links>)
    requires LinksOk(l)
    ensures r.Ok? ==> LinksOk(r.value) && |r.value.nodes| == |l.nodes| + |ts|
    ensures r.Err? ==> r.error == ParserError
    decreases |ts|
  {
    if ts == [] then Ok(l)
    else
      var l1 :- LinkStep(l, ts[0]);
      LinkAll(l1, ts[1..])
  }

  /** A step keeps the nodes, in order, and adds the term as the newest child of its parent. */
  lemma LinkStepNodes(l: Links, t: Term)
    requires LinksOk(l) && LinkStep(l, t).Ok?
    ensures var r := LinkStep(l, t).value; var p := l.last[t.parentTerm];
      && (forall i :: 0 <= i < |l.nodes| ==> r.nodes[i].term == l.nodes[i].term)
      && (forall i :: 0 <= i < |l.nodes| && i != p ==> r.nodes[i].children == l.nodes[i].children)
      && r.nodes[p].children == l.nodes[p].children + [|l.nodes|]
  {
  }

  /** The linked tree holds the root and then every term, in order. */
  lemma {:induction false} LinkAllTerms(l: Links, ts: seq<Term>)
    requires LinksOk(l) && LinkAll(l, ts).Ok?
    ensures var r := LinkAll(l, ts).value;
      && (forall i :: 0 <= i < |l.nodes| ==> r.nodes[i].term == l.nodes[i].term)
      && (forall i :: 0 <= i < |ts| ==> r.nodes[|l.nodes| + i].term == ts[i])
    decreases |ts|
  {
    if ts != [] {
      var l1 := LinkStep(l, ts[0]).value;
      LinkStepNodes(l, ts[0]);
      LinkAllTerms(l1, ts[1..]);
      var r := LinkAll(l, ts).value;
      forall i | 0 <= i < |ts| ensures r.nodes[|l.nodes| + i].term == ts[i] {
        if i > 0 {
          assert ts[1..][i - 1] == ts[i];
          assert |l.nodes| + i == |l1.nodes| + (i - 1);
        }
      }
    }
  }

  /** What last_term_map may point at: the root, or a term that is neither an argument child nor under an elided parent. */
  predicate MapTargets(l: Links)
    requires LinksOk(l)
  {
    forall k :: k in l.last ==> l.last[k] == 0 || (!l.nodes[l.last[k]].term.isArgChild && l.nodes[l.last[k]].term.parentTerm != ELIDED_TERM)
  }

  /** Argument children and terms with an elided parent never become anyone's parent through the map. */
  lemma {:induction false} LinkAllTargets(l: Links, ts: seq<Term>)
    requires LinksOk(l) && MapTargets(l) && LinkAll(l, ts).Ok?
    ensures MapTargets(LinkAll(l, ts).value)
    decreases |ts|
  {
    if ts != [] {
      var l1 := LinkStep(l, ts[0]).value;
      LinkStepNodes(l, ts[0]);
      assert MapTargets(l1);
      LinkAllTargets(l1, ts[1..]);
    }
  }

  /** The initial map points only at the root. */
  lemma InitTargets()
    ensures MapTargets(LinkInit())
  {
  }

  // ---------------------------------------------------------------------
  // convert_to_dict

  /**
   * The entry a child converted to `v` leaves, given the current entry: a
   * 'scalar' child replaces it; a 'sequence' child is appended to a list
   * and otherwise starts one; any other child is appended to a list,
   * starts the entry when there is none and turns a non-list entry into a
   * list of both.
   */
  function NewEntry(cur: Option<DVal>, cpt: string, v: DVal): DVal
  {
    if cpt == "scalar" then v
    else if cur.Some? && cur.value.Lst? then Lst(cur.value.xs + [v])
    else if cpt == "sequence" then Lst([v])
    else if cur.None? then v
    else Lst([cur.value, v])
  }

  /** One child of a dict being built, converted to `v`. */
  function AddChild(d: Dict<string, DVal>, c: Term, v: DVal): Dict<string, DVal>
  {
    Put(d, c.recordTerm, NewEntry(Get(d, c.recordTerm), c.childPropertyType, v))
  }

  /** Adding a child changes only the entry of its own name, to the new entry. */
  lemma AddChildGet(d: Dict<string, DVal>, c: Term, v: DVal, k: string)
    ensures Get(AddChild(d, c, v), k) ==
      if k == c.recordTerm then Some(NewEntry(Get(d, c.recordTerm), c.childPropertyType, v)) else Get(d, k)
  {
    var e := NewEntry(Get(d, c.recordTerm), c.childPropertyType, v);
    if k == c.recordTerm {
      GetPutSame(d, k, e);
    } else {
      GetPutOther(d, c.recordTerm, e, k);
    }
  }

  /** A child to add to a dict: its term and its converted value. */
  type Item = (Term, DVal)

  /** The dict built from children, in order. */
  function Fold(items: seq<Item>): Dict<string, DVal>
  {
    if items == [] then []
    else AddChild(Fold(items[..|items| - 1]), items[|items| - 1].0, items[|items| - 1].1)
  }

  /** The values of the children whose record name is `rec`, in order. */
  function Collect(items: seq<Item>, rec: string): seq<DVal>
  {
    if items == [] then []
    else
      var last := items[|items| - 1];
      Collect(items[..|items| - 1], rec) + (if last.0.recordTerm == rec then [last.1] else [])
  }

  /** The entry that children of one property type with the values `xs` leave. */
  function Collected(xs: seq<DVal>, cpt: string): Option<DVal>
  {
    if xs == [] then None
    else if cpt == "sequence" || |xs| >= 2 then Some(Lst(xs))
    else Some(xs[0])
  }

  lemma CollectedStep(xs: seq<DVal>, cpt: string, v: DVal)
    requires cpt != "scalar" && (|xs| == 1 ==> !xs[0].Lst?)
    ensures Collected(xs + [v], cpt) == Some(NewEntry(Collected(xs, cpt), cpt, v))
  {
    if xs == [] {
      assert xs + [v] == [v];
    } else if cpt != "sequence" && |xs| == 1 {
      assert xs + [v] == [xs[0], v];
    } else {
      assert |xs + [v]| >= 2;
    }
  }

  /**
   * When every child named `rec` has the same child property type other
   * than 'scalar' and a value that is not a list, the entry is the list of
   * their values in order, except that a lone child whose type is not
   * 'sequence' gives its value alone.
   */
  lemma {:induction false} FoldCollects(items: seq<Item>, rec: string, cpt: string)
    requires cpt != "scalar"
    requires forall i :: 0 <= i < |items| && items[i].0.recordTerm == rec ==>
      items[i].0.childPropertyType == cpt && !items[i].1.Lst?
    ensures Get(Fold(items), rec) == Collected(Collect(items, rec), cpt)
    ensures forall j :: 0 <= j < |Collect(items, rec)| ==> !Collect(items, rec)[j].Lst?
  {
    if items != [] {
      var init := items[..|items| - 1];
      var last := items[|items| - 1];
      FoldCollects(init, rec, cpt);
      var xs := Collect(init, rec);
      assert Fold(items) == AddChild(Fold(init), last.0, last.1);
      AddChildGet(Fold(init), last.0, last.1, rec);
      if last.0.recordTerm == rec {
        assert Collect(items, rec) == xs + [last.1];
        CollectedStep(xs, cpt, last.1);
      } else {
        assert Collect(items, rec) == xs;
      }
    }
  }

  /** Children with other names leave an entry as it is. */
  lemma {:induction false} FoldOthers(items: seq<Item>, k: nat, rec: string)
    requires k <= |items|
    requires forall j :: k <= j < |items| ==> items[j].0.recordTerm != rec
    ensures Get(Fold(items), rec) == Get(Fold(items[..k]), rec)
  {
    if k < |items| {
      var init := items[..|items| - 1];
      var last := items[|items| - 1];
      FoldOthers(init, k, rec);
      assert Fold(items) == AddChild(Fold(init), last.0, last.1);
      assert last.0.recordTerm != rec;
      AddChildGet(Fold(init), last.0, last.1, rec);
      assert init[..k] == items[..k];
    } else {
      assert items[..k] == items;
    }
  }

  /** A name whose last child is 'scalar' takes that child's value. */
  lemma FoldScalarLast(items: seq<Item>, k: nat)
    requires 0 < k <= |items| && items[k - 1].0.childPropertyType == "scalar"
    requires forall j :: k <= j < |items| ==> items[j].0.recordTerm != items[k - 1].0.recordTerm
    ensures Get(Fold(items), items[k - 1].0.recordTerm) == Some(items[k - 1].1)
  {
    FoldOthers(items, k, items[k - 1].0.recordTerm);
    assert items[..k][..k - 1] == items[..k - 1];
    AddChildGet(Fold(items[..k - 1]), items[k - 1].0, items[k - 1].1, items[k - 1].0.recordTerm);
  }

  /** The value of a node: None or its string when it has no children, otherwise the dict of its children. */
  function Convert(nodes: seq<LNode>, id: nat): (r: DVal)
    requires Linked(nodes) && id < |nodes|
    ensures !r.Lst?
    ensures r.Str? <==> nodes[id].children == []
    decreases |nodes| - id, 1
  {
    var n := nodes[id];
    if n.children == [] then Str(n.term.value)
    else
      var d := Fold(Kids(nodes, id));
      Obj(if Truthy(Str(n.term.value)) then Put(d, n.term.termValueName, Str(n.term.value)) else d)
  }

  /** The children of a node, each with its converted value. */
  function Kids(nodes: seq<LNode>, id: nat): (r: seq<Item>)
    requires Linked(nodes) && id < |nodes|
    ensures |r| == |nodes[id].children|
    ensures forall j :: 0 <= j < |r| ==> r[j].0 == nodes[nodes[id].children[j]].term && !r[j].1.Lst?
    decreases |nodes| - id, 0
  {
    var cs := nodes[id].children;
    seq(|cs|, j requires 0 <= j < |cs| => (nodes[cs[j]].term, Convert(nodes, cs[j])))
  }

  /**
   * In the dict of a node, a name all of whose children share a property
   * type other than 'scalar' holds their values in order (as a list, or
   * alone for a single child that is not a 'sequence').
   */
  lemma ConvertCollects(nodes: seq<LNode>, id: nat, rec: string, cpt: string)
    requires Linked(nodes) && id < |nodes| && nodes[id].children != [] && cpt != "scalar"
    requires forall j :: 0 <= j < |nodes[id].children| && nodes[nodes[id].children[j]].term.recordTerm == rec ==>
      nodes[nodes[id].children[j]].term.childPropertyType == cpt
    requires rec != nodes[id].term.termValueName || !Truthy(Str(nodes[id].term.value))
    ensures Get(Convert(nodes, id).d, rec) == Collected(Collect(Kids(nodes, id), rec), cpt)
  {
    var kids := Kids(nodes, id);
    FoldCollects(kids, rec, cpt);
    if Truthy(Str(nodes[id].term.value)) {
      GetPutOther(Fold(kids), nodes[id].term.termValueName, Str(nodes[id].term.value), rec);
    }
  }

  /** A node with children and a non-blank value keeps the value under its term value name. */
  lemma ValueUnderName(nodes: seq<LNode>, id: nat)
    requires Linked(nodes) && id < |nodes| && nodes[id].children != []
    requires Truthy(Str(nodes[id].term.value))
    ensures Get(Convert(nodes, id).d, nodes[id].term.termValueName) == Some(Str(nodes[id].term.value))
  {
    GetPutSame(Fold(Kids(nodes, id)), nodes[id].term.termValueName, Str(nodes[id].term.value));
  }

  /** convert_to_dict(term), for the node `id`. */
  method ConvertToDict(nodes: seq<LNode>, id: nat) returns (r: DVal)
    requires Linked(nodes) && id < |nodes|
    ensures r == Convert(nodes, id)
    decreases |nodes| - id
  {
    var n := nodes[id];
    if n.children == [] {
      return Str(n.term.value);
    }
    ghost var kids := Kids(nodes, id);
    var d: Dict<string, DVal> := [];
    for k := 0 to |n.children|
      invariant d == Fold(kids[..k])
    {
      var c := n.children[k];
      var v := ConvertToDict(nodes, c);
      var t := nodes[c].term;
      var cur := Get(d, t.recordTerm);
      var e: DVal;
      if t.childPropertyType == "scalar" {
        e := v;
      } else if t.childPropertyType == "sequence" {
        if cur.Some? && cur.value.Lst? {
          e := Lst(cur.value.xs + [v]);
        } else {
          e := Lst([v]);
        }
      } else {
        if cur.None? {
          e := v;
        } else if cur.value.Lst? {
          e := Lst(cur.value.xs + [v]);
        } else {
          e := Lst([cur.value, v]);
        }
      }
      assert kids[..k + 1][..k] == kids[..k];
      d := Put(d, t.recordTerm, e);
    }
    assert kids[..|n.children|] == kids;
    if n.term.value.Some? && n.term.value.value != "" {
      d := Put(d, n.term.termValueName, Str(n.term.value));
    }
    return Obj(d);
  }
}
