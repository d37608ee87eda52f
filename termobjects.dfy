// The term objects as a mutable heap: a table of nodes whose methods update
// terms in place (Term.add_child, get_or_new_child, __setitem__, the `term`
// setter, set_ownership and SectionTerm.sort_by_term). These methods are
// proved against a pure function on the table: the one of the same name in
// Terms, or WithOwnership and RemovedRef below. Add, SetSection and
// AppendSectionTerm are single field updates whose contracts give the new
// table outright.
module TermObjects {
  import opened Wrappers
  import opened Text
  import opened ODict
  import opened Terms

  // ---------------------------------------------------------------------
  // Term.set_ownership

  /** Only the parent and section references differ between the two tables. */
  ghost predicate OwnersOnly(ns: seq<Node>, r: seq<Node>)
  {
    && |r| == |ns|
    && forall j :: 0 <= j < |ns| ==> r[j] == ns[j].(parent := r[j].parent, section := r[j].section)
  }

  /**
   * set_ownership: every child below `id` gets `id`'s section and points
   * at the term it hangs from; a term without a section fails the
   * assertion at the top.
   */
  function WithOwnership(ns: seq<Node>, id: nat): (r: Result<seq<Node>>)
    requires Valid(ns) && id < |ns|
    ensures r.Err? <==> ns[id].section.None?
    ensures r.Ok? ==> OwnersOnly(ns, r.value) && Valid(r.value)
    ensures r.Ok? ==> forall j :: 0 <= j <= id ==> r.value[j] == ns[j]
    ensures r.Ok? ==> forall j :: 0 <= j < |ns| && ns[j].section == ns[id].section ==> r.value[j].section == ns[id].section
    ensures r.Ok? ==> forall k :: 0 <= k < |ns[id].children| ==> r.value[ns[id].children[k]].section == ns[id].section
    decreases |ns| - id, |ns[id].children| + 1
  {
    if ns[id].section.None? then Err(AssertionError)
    else OwnChildren(ns, id, ns[id].children, ns[id].section)
  }

  function OwnChildren(ns: seq<Node>, pid: nat, cs: seq<nat>, sec: Option<nat>): (r: Result<seq<Node>>)
    requires Valid(ns) && pid < |ns| && sec.Some? && sec.value < |ns|
    requires forall k :: 0 <= k < |cs| ==> pid < cs[k] < |ns|
    ensures r.Ok? ==> OwnersOnly(ns, r.value) && Valid(r.value)
    ensures r.Ok? ==> forall j :: 0 <= j <= pid ==> r.value[j] == ns[j]
    ensures r.Ok? ==> forall j :: 0 <= j < |ns| && ns[j].section == sec ==> r.value[j].section == sec
    ensures r.Ok? ==> forall k :: 0 <= k < |cs| ==> r.value[cs[k]].section == sec
    ensures cs != [] ==> r.Ok?
    decreases |ns| - pid, |cs|
  {
    if cs == [] then Ok(ns)
    else
      var c := cs[0];
      var ns1 := ns[c := ns[c].(parent := Some(pid), section := sec)];
      OwnOneValid(ns, c, pid, sec);
      var ns2 := WithOwnership(ns1, c).value;
      assert forall k :: 0 <= k < |cs[1..]| ==> pid < cs[1..][k] < |ns2|;
      var rest := OwnChildren(ns2, pid, cs[1..], sec);
      assert rest.Ok? by {
        if cs[1..] == [] {} else {}
      }
      OwnStep(ns, pid, cs, sec, ns1, ns2, rest.value);
      rest
  }

  /** One child's ownership, then the rest: the facts OwnChildren promises compose. */
  lemma OwnStep(ns: seq<Node>, pid: nat, cs: seq<nat>, sec: Option<nat>, ns1: seq<Node>, ns2: seq<Node>, r: seq<Node>)
    requires pid < |ns| && cs != [] && forall k :: 0 <= k < |cs| ==> pid < cs[k] < |ns|
    requires OwnersOnly(ns, ns1) && ns1 == ns[cs[0] := ns[cs[0]].(parent := Some(pid), section := sec)]
    requires OwnersOnly(ns1, ns2) && forall j :: 0 <= j <= cs[0] ==> ns2[j] == ns1[j]
    requires forall j :: 0 <= j < |ns1| && ns1[j].section == sec ==> ns2[j].section == sec
    requires OwnersOnly(ns2, r) && forall j :: 0 <= j <= pid ==> r[j] == ns2[j]
    requires forall j :: 0 <= j < |ns2| && ns2[j].section == sec ==> r[j].section == sec
    requires forall k :: 0 <= k < |cs[1..]| ==> r[cs[1..][k]].section == sec
    ensures OwnersOnly(ns, r)
    ensures forall j :: 0 <= j <= pid ==> r[j] == ns[j]
    ensures forall j :: 0 <= j < |ns| && ns[j].section == sec ==> r[j].section == sec
    ensures forall k :: 0 <= k < |cs| ==> r[cs[k]].section == sec
  {
    OwnersTrans(ns, ns1, ns2);
    OwnersTrans(ns, ns2, r);
    forall k | 0 <= k < |cs| ensures r[cs[k]].section == sec {
      if k > 0 { assert cs[k] == cs[1..][k - 1]; }
    }
  }

  lemma OwnOneValid(ns: seq<Node>, c: nat, pid: nat, sec: Option<nat>)
    requires Valid(ns) && pid < |ns| && c < |ns| && sec.Some? && sec.value < |ns|
    ensures var ns1 := ns[c := ns[c].(parent := Some(pid), section := sec)];
      Valid(ns1) && OwnersOnly(ns, ns1) && ns1[c].section.Some?
  {
    var ns1 := ns[c := ns[c].(parent := Some(pid), section := sec)];
    assert forall i :: 0 <= i < |ns| ==> ns1[i].children == ns[i].children && ns1[i].terms == ns[i].terms;
  }

  lemma OwnersTrans(a: seq<Node>, b: seq<Node>, c: seq<Node>)
    requires OwnersOnly(a, b) && OwnersOnly(b, c)
    ensures OwnersOnly(a, c)
  {
    forall j | 0 <= j < |a| ensures c[j] == a[j].(parent := c[j].parent, section := c[j].section) {
      assert b[j] == a[j].(parent := b[j].parent, section := b[j].section);
    }
  }

  // ---------------------------------------------------------------------
  // The remaining updates keep the table well formed

  /** The two tables hold the same terms under the same names, classes and values. */
  ghost predicate SameNames(a: seq<Node>, b: seq<Node>)
  {
    && |b| == |a|
    && forall j :: 0 <= j < |a| ==>
         && b[j].kind == a[j].kind && b[j].parentTerm == a[j].parentTerm && b[j].recordTerm == a[j].recordTerm
         && b[j].value == a[j].value
  }

  lemma SameNamesTrans(a: seq<Node>, b: seq<Node>, c: seq<Node>)
    requires SameNames(a, b) && SameNames(b, c)
    ensures SameNames(a, c)
  {
  }

  /** Setting ownership keeps every name, class and term list. */
  lemma OwnersKeep(ns: seq<Node>, r: seq<Node>)
    requires OwnersOnly(ns, r)
    ensures SameNames(ns, r) && forall j :: 0 <= j < |ns| ==> r[j].terms == ns[j].terms
  {
    forall j | 0 <= j < |ns| ensures r[j].terms == ns[j].terms && r[j].kind == ns[j].kind
      && r[j].parentTerm == ns[j].parentTerm && r[j].recordTerm == ns[j].recordTerm && r[j].value == ns[j].value
    {
      assert r[j] == ns[j].(parent := r[j].parent, section := r[j].section);
    }
  }

  lemma SetTermValid(ns: seq<Node>, id: nat, v: string)
    requires Valid(ns) && id < |ns|
    ensures SetTerm(ns, id, v).Ok? ==> Valid(SetTerm(ns, id, v).value)
  {
    var r := SetTerm(ns, id, v);
    if r.Ok? {
      assert forall i :: 0 <= i < |ns| ==> r.value[i].children == ns[i].children && r.value[i].terms == ns[i].terms;
      assert forall i :: 0 <= i < |ns| ==> r.value[i].parent == ns[i].parent && r.value[i].section == ns[i].section;
    }
  }

  lemma SetItemValid(ns: seq<Node>, id: nat, item: string, value: Option<string>)
    requires Valid(ns) && id < |ns|
    ensures SetItem(ns, id, item, value).Ok? ==> Valid(SetItem(ns, id, item, value).value)
  {
    if Lower(item) == Lower(ns[id].termValueName) || Lower(item) == "value" {
      SetValueValid(ns, id, value);
    } else if value.Some? {
      GetOrNewChildValid(ns, id, item, Some(value));
    }
  }

  lemma SortByTermValid(ns: seq<Node>, sid: nat, order: Option<seq<string>>)
    requires Valid(ns) && sid < |ns|
    ensures SortByTerm(ns, sid, order).Ok? ==> Valid(SortByTerm(ns, sid, order).value)
  {
    var r := SortByTerm(ns, sid, order);
    if r.Ok? {
      assert forall i :: 0 <= i < |ns| ==> r.value[i].children == ns[i].children;
      assert forall i :: 0 <= i < |ns| ==> r.value[i].parent == ns[i].parent && r.value[i].section == ns[i].section;
    }
  }

  /** The table with `t` taken out of a term's children or a section's terms. */
  function RemovedRef(ns: seq<Node>, id: nat, t: nat, fromTerms: bool): (r: seq<Node>)
    requires id < |ns|
    ensures |r| == |ns| && forall j :: 0 <= j < |ns| && j != id ==> r[j] == ns[j]
    ensures fromTerms ==> r[id] == ns[id].(terms := RemoveFirst(ns[id].terms, t))
    ensures !fromTerms ==> r[id] == ns[id].(children := RemoveFirst(ns[id].children, t))
  {
    ns[id := if fromTerms then ns[id].(terms := RemoveFirst(ns[id].terms, t))
             else ns[id].(children := RemoveFirst(ns[id].children, t))]
  }

  lemma RemovedRefValid(ns: seq<Node>, id: nat, t: nat, fromTerms: bool)
    requires Valid(ns) && id < |ns|
    ensures Valid(RemovedRef(ns, id, t, fromTerms)) && SameNames(ns, RemovedRef(ns, id, t, fromTerms))
  {
    var r := RemovedRef(ns, id, t, fromTerms);
    forall i, j | 0 <= i < |r| && 0 <= j < |r[i].children| ensures i < r[i].children[j] < |r| {
      if i == id && !fromTerms { RemoveFirstIn(ns[id].children, t, r[i].children[j]); }
    }
    forall i, k | 0 <= i < |r| && 0 <= k < |r[i].terms| ensures r[i].terms[k] < |r| {
      if i == id && fromTerms { RemoveFirstIn(ns[id].terms, t, r[i].terms[k]); }
    }
  }

  // ---------------------------------------------------------------------
  // The heap of term objects

  class TermTable {
    var nodes: seq<Node>

    ghost predicate Valid()
      reads this
    {
      Terms.Valid(nodes)
    }

    constructor()
      ensures Valid() && nodes == []
    {
      nodes := [];
    }

    /** A new term object; its id is its position in the table. */
    method Add(n: Node) returns (id: nat)
      requires Valid() && n.children == [] && n.terms == []
      requires n.parent.Some? ==> n.parent.value < |nodes|
      requires n.section.Some? ==> n.section.value < |nodes|
      modifies this
      ensures Valid() && id == |old(nodes)| && nodes == old(nodes) + [n]
    {
      id := |nodes|;
      nodes := nodes + [n];
      assert forall i :: 0 <= i < id ==> nodes[i] == old(nodes)[i];
    }

    /** Term.add_child. */
    method AddChild(p: nat, c: nat) returns (r: Result<()>)
      requires Valid() && p < c < |nodes|
      modifies this
      ensures Valid()
      ensures r.Err? <==> IsDatafileSection(old(nodes)[c])
      ensures nodes == if r.Ok? then Terms.AddChild(old(nodes), p, c).value else old(nodes)
    {
      var res := Terms.AddChild(nodes, p, c);
      AddChildValid(nodes, p, c);
      if res.Ok? {
        nodes := res.value;
        r := Ok(());
      } else {
        r := Err(res.error);
      }
    }

    /** Term.get_or_new_child; afterwards find_first of the record name is the child returned. */
    method GetOrNewChild(id: nat, term: string, value: Option<Option<string>>) returns (r: Result<nat>)
      requires Valid() && id < |nodes|
      modifies this
      ensures Valid()
      ensures r.Ok? <==> Terms.GetOrNewChild(old(nodes), id, term, value).Ok?
      ensures r.Ok? ==> (nodes, r.value) == Terms.GetOrNewChild(old(nodes), id, term, value).value
      ensures r.Err? ==> nodes == old(nodes)
      ensures r.Ok? ==> FindFirst(nodes, id, SplitTerm(term).value.1, None) == Ok(Some(r.value))
    {
      var res := Terms.GetOrNewChild(nodes, id, term, value);
      GetOrNewChildFinds(nodes, id, term, value);
      if res.Ok? {
        nodes := res.value.0;
        r := Ok(res.value.1);
      } else {
        r := Err(res.error);
      }
    }

    /** Term.__setitem__. */
    method SetItem(id: nat, item: string, value: Option<string>) returns (r: Result<()>)
      requires Valid() && id < |nodes|
      modifies this
      ensures Valid()
      ensures r.Ok? <==> Terms.SetItem(old(nodes), id, item, value).Ok?
      ensures nodes == if r.Ok? then Terms.SetItem(old(nodes), id, item, value).value else old(nodes)
    {
      var res := Terms.SetItem(nodes, id, item, value);
      SetItemValid(nodes, id, item, value);
      if res.Ok? {
        nodes := res.value;
        r := Ok(());
      } else {
        r := Err(res.error);
      }
    }

    /** The `term` setter. */
    method SetTerm(id: nat, v: string) returns (r: Result<()>)
      requires Valid() && id < |nodes|
      modifies this
      ensures Valid()
      ensures r.Ok? <==> Terms.SetTerm(old(nodes), id, v).Ok?
      ensures nodes == if r.Ok? then Terms.SetTerm(old(nodes), id, v).value else old(nodes)
    {
      var res := Terms.SetTerm(nodes, id, v);
      SetTermValid(nodes, id, v);
      if res.Ok? {
        nodes := res.value;
        r := Ok(());
      } else {
        r := Err(res.error);
      }
    }

    /** Term.set_ownership. */
    method SetOwnership(id: nat) returns (r: Result<()>)
      requires Valid() && id < |nodes|
      modifies this
      ensures Valid()
      ensures r.Err? <==> old(nodes)[id].section.None?
      ensures nodes == if r.Ok? then WithOwnership(old(nodes), id).value else old(nodes)
      ensures SameNames(old(nodes), nodes)
      ensures forall j :: 0 <= j < |nodes| ==> nodes[j].terms == old(nodes)[j].terms
    {
      var res := WithOwnership(nodes, id);
      if res.Ok? { OwnersKeep(nodes, res.value); }
      if res.Ok? {
        nodes := res.value;
        r := Ok(());
      } else {
        r := Err(res.error);
      }
    }

    /** SectionTerm.sort_by_term: the section's terms reassigned, a permutation of the old ones. */
    method SortByTerm(sid: nat, order: Option<seq<string>>) returns (r: Result<()>)
      requires Valid() && sid < |nodes|
      modifies this
      ensures Valid()
      ensures r.Ok? <==> Terms.SortByTerm(old(nodes), sid, order).Ok?
      ensures nodes == if r.Ok? then Terms.SortByTerm(old(nodes), sid, order).value else old(nodes)
      ensures multiset(nodes[sid].terms) == multiset(old(nodes)[sid].terms)
    {
      var res := Terms.SortByTerm(nodes, sid, order);
      SortByTermValid(nodes, sid, order);
      if res.Ok? {
        nodes := res.value;
        r := Ok(());
      } else {
        r := Err(res.error);
      }
    }

    /** Assigning a term's section (the `section` setter). */
    method SetSection(id: nat, sec: nat)
      requires Valid() && id < |nodes| && sec < |nodes|
      modifies this
      ensures Valid() && SameNames(old(nodes), nodes)
      ensures nodes == old(nodes)[id := old(nodes)[id].(section := Some(sec))]
    {
      nodes := nodes[id := nodes[id].(section := Some(sec))];
      assert forall i :: 0 <= i < |nodes| ==> nodes[i].children == old(nodes)[i].children && nodes[i].terms == old(nodes)[i].terms;
    }

    /** self.terms.append(t) on a section. */
    method AppendSectionTerm(sid: nat, t: nat)
      requires Valid() && sid < |nodes| && t < |nodes|
      modifies this
      ensures Valid() && SameNames(old(nodes), nodes)
      ensures nodes == old(nodes)[sid := old(nodes)[sid].(terms := old(nodes)[sid].terms + [t])]
    {
      nodes := nodes[sid := nodes[sid].(terms := nodes[sid].terms + [t])];
      assert forall i :: 0 <= i < |nodes| ==> nodes[i].children == old(nodes)[i].children && nodes[i].parent == old(nodes)[i].parent;
      assert forall i :: 0 <= i < |nodes| ==> nodes[i].section == old(nodes)[i].section;
    }

    /** A section's terms, or a term's children, with the first occurrence of `t` taken out (if any). */
    method RemoveRefs(id: nat, t: nat, fromTerms: bool)
      requires Valid() && id < |nodes|
      modifies this
      ensures Valid() && SameNames(old(nodes), nodes)
      ensures nodes == RemovedRef(old(nodes), id, t, fromTerms)
    {
      RemovedRefValid(nodes, id, t, fromTerms);
      nodes := RemovedRef(nodes, id, t, fromTerms);
    }
  }
}
