// The document builder of metatab/builder.py, the inverse direction of the
// term interpreter: sections and term records are built by hand and then
// emitted as rows. The builder's MetatabDoc keeps every TermRecord and
// Section it creates in a table, so that a record handed back by new_term
// or new_child and later given children is the same record its parent
// lists; parent, section and child references are indices into the tables.
// Values are single cells (strings). The declarations the builder consults
// are given as the dicts the term interpreter would produce: a term's
// 'termvaluename' and a section's 'args', each possibly absent.
module Builder {
  import opened Wrappers
  import opened Text
  import opened ODict

  const ROOT_DOT: string := "root."
  const VALUE_NAME: string := "@value"
  const ROOT_NAME: string := "Root"

  /** A TermRecord: its term and value, its parent and section, its children in order, its qualified_term. */
  datatype Rec = Rec(term: string, value: string, parent: Option<nat>, section: nat, children: seq<nat>, qualified: string)

  /** A Section: its name, its param_names and its terms in order. */
  datatype Sec = Sec(name: string, params: seq<string>, terms: seq<nat>)

  /** TermRecord.is_terminal: no children. */
  predicate IsTerminal(r: Rec)
  {
    r.children == []
  }

  /** TermRecord.qualified_term: the parent's term and the term, lower-cased, or 'root.' and the term. */
  function QualifiedTerm(parentTerm: Option<string>, term: string): (q: string)
    ensures EndsWith(q, "." + Lower(term))
  {
    var head := if parentTerm.None? then "root" else Lower(parentTerm.value);
    var q := head + "." + Lower(term);
    assert q == head + ("." + Lower(term));
    assert q[|q| - |"." + Lower(term)|..] == "." + Lower(term);
    q
  }

  /** A qualified term is lower-case, whatever the case of the terms it is made from. */
  lemma QualifiedLower(parentTerm: Option<string>, term: string)
    ensures IsLower(QualifiedTerm(parentTerm, term))
  {
    LowerIdempotent(term);
    if parentTerm.Some? {
      LowerIdempotent(parentTerm.value);
      DotJoinLower(Lower(parentTerm.value), Lower(term));
    } else {
      assert IsLower("root") by {
        forall i | 0 <= i < 4 ensures !IsUpperChar("root"[i]) {}
      }
      DotJoinLower("root", Lower(term));
    }
  }

  lemma DotJoinLower(a: string, b: string)
    requires IsLower(a) && IsLower(b)
    ensures IsLower(a + "." + b)
  {
    var q := a + "." + b;
    forall i | 0 <= i < |q| ensures !IsUpperChar(q[i]) {
      if i < |a| { assert q[i] == a[i]; }
      else if i > |a| { assert q[i] == b[i - |a| - 1]; }
    }
  }

  // ---------------------------------------------------------------------
  // The tables and what they keep true

  /** Children come after their parent, so the rows recursion terminates. */
  ghost predicate Acyclic(recs: seq<Rec>)
  {
    forall j, k :: 0 <= j < |recs| && 0 <= k < |recs[j].children| ==> j < recs[j].children[k] < |recs|
  }

  /**
   * Record `j` is linked consistently: its section exists; a child of a
   * parent shares the parent's section, is listed among the parent's
   * children and is qualified by the parent's term; its own children point
   * back at it.
   */
  ghost predicate RecOk(recs: seq<Rec>, nsecs: nat, j: nat)
    requires j < |recs|
  {
    var r := recs[j];
    && r.section < nsecs
    && (match r.parent
        case None => r.qualified == QualifiedTerm(None, r.term)
        case Some(p) =>
          && p < j && recs[p].section == r.section && j in recs[p].children
          && r.qualified == QualifiedTerm(Some(recs[p].term), r.term))
    && forall k :: 0 <= k < |r.children| ==> j < r.children[k] < |recs| && recs[r.children[k]].parent == Some(j)
  }

  /** The terms of section `s` are top-level records of that section. */
  ghost predicate SecOk(recs: seq<Rec>, secs: seq<Sec>, s: nat)
    requires s < |secs|
  {
    forall k :: 0 <= k < |secs[s].terms| ==>
      secs[s].terms[k] < |recs| && recs[secs[s].terms[k]].parent.None? && recs[secs[s].terms[k]].section == s
  }

  ghost predicate Table(recs: seq<Rec>, secs: seq<Sec>)
  {
    && (forall j :: 0 <= j < |recs| ==> RecOk(recs, |secs|, j))
    && (forall s :: 0 <= s < |secs| ==> SecOk(recs, secs, s))
  }

  lemma TableAcyclic(recs: seq<Rec>, secs: seq<Sec>)
    requires Table(recs, secs)
    ensures Acyclic(recs)
  {
    forall j, k | 0 <= j < |recs| && 0 <= k < |recs[j].children| ensures j < recs[j].children[k] < |recs| {
      assert RecOk(recs, |secs|, j);
    }
  }

  /** The indices a, a+1, ..., a+n-1. */
  function Ids(a: nat, n: nat): (r: seq<nat>)
    ensures |r| == n && forall k :: 0 <= k < n ==> r[k] == a + k
  {
    seq(n, k requires 0 <= k < n => a + k)
  }

  /** The parent's children list with the new record `id` appended. */
  function Linked(recs: seq<Rec>, parent: Option<nat>, id: nat): (r: seq<Rec>)
    ensures |r| == |recs|
  {
    match parent
    case None => recs
    case Some(p) => if p < |recs| then recs[p := recs[p].(children := recs[p].children + [id])] else recs
  }

  /** The term of the record's parent, if it has one. */
  function ParentTerm(recs: seq<Rec>, parent: Option<nat>): Option<string>
  {
    match parent
    case None => None
    case Some(p) => if p < |recs| then Some(recs[p].term) else None
  }

  /** The leaf children `TermRecord.__init__` makes from its keyword arguments, in their order. */
  function KwRecs(id: nat, term: string, s: nat, kwargs: seq<(string, string)>): (r: seq<Rec>)
    ensures |r| == |kwargs|
    ensures forall k :: 0 <= k < |kwargs| ==> r[k] == Rec(kwargs[k].0, kwargs[k].1, Some(id), s, [], QualifiedTerm(Some(term), kwargs[k].0))
  {
    seq(|kwargs|, k requires 0 <= k < |kwargs| => Rec(kwargs[k].0, kwargs[k].1, Some(id), s, [], QualifiedTerm(Some(term), kwargs[k].0)))
  }

  /**
   * The table after `TermRecord(term, value, parent, section, **kwargs)`:
   * the record goes at the next index, listed among its parent's children,
   * and each keyword argument becomes a terminal child after it.
   */
  function Made(recs: seq<Rec>, term: string, value: string, parent: Option<nat>, s: nat, kwargs: seq<(string, string)>): (r: seq<Rec>)
    ensures |r| == |recs| + 1 + |kwargs|
  {
    var id := |recs|;
    Linked(recs, parent, id)
      + [Rec(term, value, parent, s, Ids(id + 1, |kwargs|), QualifiedTerm(ParentTerm(recs, parent), term))]
      + KwRecs(id, term, s, kwargs)
  }

  /** Making a record keeps the tables consistent. */
  lemma MadeTable(recs: seq<Rec>, secs: seq<Sec>, term: string, value: string, parent: Option<nat>, s: nat, kwargs: seq<(string, string)>)
    requires Table(recs, secs) && s < |secs|
    requires parent.Some? ==> parent.value < |recs| && recs[parent.value].section == s
    ensures Table(Made(recs, term, value, parent, s, kwargs), secs)
  {
    var id := |recs|;
    var r := Made(recs, term, value, parent, s, kwargs);
    MadePrefix(recs, term, value, parent, s, kwargs);
    assert r[id].parent == parent;
    forall j | 0 <= j < |r| ensures RecOk(r, |secs|, j) {
      if j < id {
        OldRecOk(recs, secs, r, j, parent);
      } else if j == id {
        NewRecOk(recs, secs, term, value, parent, s, kwargs);
      } else {
        KwRecOk(recs, secs, term, value, parent, s, kwargs, j - id - 1);
      }
    }
    forall t | 0 <= t < |secs| ensures SecOk(r, secs, t) {
      assert SecOk(recs, secs, t);
    }
  }

  /** The records already there keep everything but their children, which only grow, by the new record. */
  lemma MadePrefix(recs: seq<Rec>, term: string, value: string, parent: Option<nat>, s: nat, kwargs: seq<(string, string)>)
    ensures var r := Made(recs, term, value, parent, s, kwargs);
      && (forall i :: 0 <= i < |recs| ==> r[i] == recs[i].(children := r[i].children))
      && (forall i :: 0 <= i < |recs| ==> recs[i].children <= r[i].children)
      && (forall i, k :: 0 <= i < |recs| && |recs[i].children| <= k < |r[i].children| ==> r[i].children[k] == |recs| && parent == Some(i))
  {
    var r := Made(recs, term, value, parent, s, kwargs);
    var l := Linked(recs, parent, |recs|);
    assert forall i :: 0 <= i < |recs| ==> r[i] == l[i];
  }

  lemma OldRecOk(recs: seq<Rec>, secs: seq<Sec>, r: seq<Rec>, j: nat, parent: Option<nat>)
    requires Table(recs, secs) && j < |recs| <= |r|
    requires forall i :: 0 <= i < |recs| ==> r[i] == recs[i].(children := r[i].children)
    requires forall i :: 0 <= i < |recs| ==> recs[i].children <= r[i].children
    requires forall k :: |recs[j].children| <= k < |r[j].children| ==> r[j].children[k] == |recs| && parent == Some(j)
    requires |recs| < |r| && r[|recs|].parent == parent
    ensures RecOk(r, |secs|, j)
  {
    assert RecOk(recs, |secs|, j);
    forall k | 0 <= k < |r[j].children| ensures j < r[j].children[k] < |r| && r[r[j].children[k]].parent == Some(j) {
      if k < |recs[j].children| {
        assert r[j].children[k] == recs[j].children[k];
      }
    }
    if recs[j].parent.Some? {
      var p := recs[j].parent.value;
      assert recs[j] in recs;
      assert j in r[p].children by { assert recs[p].children <= r[p].children; }
    }
  }

  lemma NewRecOk(recs: seq<Rec>, secs: seq<Sec>, term: string, value: string, parent: Option<nat>, s: nat, kwargs: seq<(string, string)>)
    requires Table(recs, secs) && s < |secs|
    requires parent.Some? ==> parent.value < |recs| && recs[parent.value].section == s
    ensures RecOk(Made(recs, term, value, parent, s, kwargs), |secs|, |recs|)
  {
    var id := |recs|;
    var r := Made(recs, term, value, parent, s, kwargs);
    assert r[id] == Rec(term, value, parent, s, Ids(id + 1, |kwargs|), QualifiedTerm(ParentTerm(recs, parent), term));
    forall c | id < c < |r| ensures r[c].parent == Some(id) {
      assert r[c] == KwRecs(id, term, s, kwargs)[c - id - 1];
    }
    if parent.Some? {
      var p := parent.value;
      assert r[p] == recs[p].(children := recs[p].children + [id]);
      assert id in r[p].children by { assert r[p].children[|recs[p].children|] == id; }
    }
  }

  lemma KwRecOk(recs: seq<Rec>, secs: seq<Sec>, term: string, value: string, parent: Option<nat>, s: nat, kwargs: seq<(string, string)>, k: nat)
    requires s < |secs| && k < |kwargs|
    ensures RecOk(Made(recs, term, value, parent, s, kwargs), |secs|, |recs| + 1 + k)
  {
    var id := |recs|;
    var r := Made(recs, term, value, parent, s, kwargs);
    assert r[id + 1 + k] == KwRecs(id, term, s, kwargs)[k];
    assert r[id].children == Ids(id + 1, |kwargs|);
    assert r[id].children[k] == id + 1 + k;
  }

  /** A new top-level record, listed in its section, keeps the tables consistent. */
  lemma NewTermTable(recs: seq<Rec>, secs: seq<Sec>, r: seq<Rec>, s: nat, id: nat)
    requires Table(r, secs) && s < |secs| && id < |r| && r[id].parent.None? && r[id].section == s
    requires |recs| <= |r| && SecOk(recs, secs, s) && forall j :: 0 <= j < |recs| ==> r[j].parent == recs[j].parent && r[j].section == recs[j].section
    ensures Table(r, secs[s := secs[s].(terms := secs[s].terms + [id])])
  {
    var secs' := secs[s := secs[s].(terms := secs[s].terms + [id])];
    forall j | 0 <= j < |r| ensures RecOk(r, |secs'|, j) {
      assert RecOk(r, |secs|, j);
    }
    forall t | 0 <= t < |secs'| ensures SecOk(r, secs', t) {
      assert SecOk(r, secs, t);
    }
  }

  // ---------------------------------------------------------------------
  // TermRecord.rows

  /** decl_terms.get(q, {}).get('termvaluename', '@value'). */
  function TermValueName(dt: Dict<string, Option<string>>, q: string): (r: string)
    ensures !Has(dt, q) ==> r == VALUE_NAME
  {
    var e := Get(dt, q);
    if e.Some? && e.value.Some? then e.value.value else VALUE_NAME
  }

  /** `properties`: the term-value name maps to the value, then each of the first `n` terminal children's terms to its value. */
  function PropsUpTo(recs: seq<Rec>, dt: Dict<string, Option<string>>, id: nat, n: nat): Dict<string, string>
    requires Acyclic(recs) && id < |recs| && n <= |recs[id].children|
  {
    if n == 0 then [(TermValueName(dt, recs[id].qualified), recs[id].value)]
    else
      var c := recs[recs[id].children[n - 1]];
      var p := PropsUpTo(recs, dt, id, n - 1);
      if IsTerminal(c) then Put(p, c.term, c.value) else p
  }

  function Props(recs: seq<Rec>, dt: Dict<string, Option<string>>, id: nat): Dict<string, string>
    requires Acyclic(recs) && id < |recs|
  {
    PropsUpTo(recs, dt, id, |recs[id].children|)
  }

  /** TermRecord.rows: the record's own row, then the rows of each non-terminal child in order. */
  function RecRows(recs: seq<Rec>, dt: Dict<string, Option<string>>, id: nat): seq<(string, Dict<string, string>)>
    requires Acyclic(recs) && id < |recs|
    decreases |recs| - id, 1
  {
    [(recs[id].qualified, Props(recs, dt, id))] + ChildRows(recs, dt, id, 0)
  }

  function ChildRows(recs: seq<Rec>, dt: Dict<string, Option<string>>, id: nat, k: nat): seq<(string, Dict<string, string>)>
    requires Acyclic(recs) && id < |recs| && k <= |recs[id].children|
    decreases |recs| - id, 0, |recs[id].children| - k
  {
    if k == |recs[id].children| then []
    else
      var c := recs[id].children[k];
      (if IsTerminal(recs[c]) then [] else RecRows(recs, dt, c)) + ChildRows(recs, dt, id, k + 1)
  }

  lemma HasPut<V>(d: Dict<string, V>, k: string, v: V, k2: string)
    ensures Has(Put(d, k, v), k2) <==> Has(d, k2) || k2 == k
  {
    var r := Put(d, k, v);
    if Has(d, k2) {
      var i :| 0 <= i < |d| && d[i].0 == k2;
      assert r[i].0 == k2;
    }
    if Has(r, k2) && k2 != k {
      var i :| 0 <= i < |r| && r[i].0 == k2;
      if i < |d| { assert r[i] == d[i]; }
    }
    if k2 == k { GetPutSame(d, k, v); }
  }

  /** A name among the first `n` children that is the term of a terminal child. */
  ghost predicate TerminalNamed(recs: seq<Rec>, id: nat, n: nat, k: string)
    requires Acyclic(recs) && id < |recs| && n <= |recs[id].children|
  {
    exists i :: 0 <= i < n && IsTerminal(recs[recs[id].children[i]]) && recs[recs[id].children[i]].term == k
  }

  /** The properties have the term-value name and the terms of the terminal children, and no other key. */
  lemma {:induction false} PropsHas(recs: seq<Rec>, dt: Dict<string, Option<string>>, id: nat, n: nat, k: string)
    requires Acyclic(recs) && id < |recs| && n <= |recs[id].children|
    ensures Has(PropsUpTo(recs, dt, id, n), k) <==> k == TermValueName(dt, recs[id].qualified) || TerminalNamed(recs, id, n, k)
  {
    if n == 0 {
      assert Has(PropsUpTo(recs, dt, id, n), k) <==> PropsUpTo(recs, dt, id, n)[0].0 == k;
    } else {
      PropsHas(recs, dt, id, n - 1, k);
      var c := recs[recs[id].children[n - 1]];
      if IsTerminal(c) {
        HasPut(PropsUpTo(recs, dt, id, n - 1), c.term, c.value, k);
      }
      if TerminalNamed(recs, id, n, k) && !TerminalNamed(recs, id, n - 1, k) {
        var i :| 0 <= i < n && IsTerminal(recs[recs[id].children[i]]) && recs[recs[id].children[i]].term == k;
        assert i == n - 1;
      }
    }
  }

  /** The value sits under the term-value name unless a terminal child has that name as its term. */
  lemma {:induction false} PropsValue(recs: seq<Rec>, dt: Dict<string, Option<string>>, id: nat, n: nat)
    requires Acyclic(recs) && id < |recs| && n <= |recs[id].children|
    requires !TerminalNamed(recs, id, n, TermValueName(dt, recs[id].qualified))
    ensures Get(PropsUpTo(recs, dt, id, n), TermValueName(dt, recs[id].qualified)) == Some(recs[id].value)
  {
    var tvm := TermValueName(dt, recs[id].qualified);
    if n > 0 {
      var c := recs[recs[id].children[n - 1]];
      assert !TerminalNamed(recs, id, n - 1, tvm) by {
        forall i | 0 <= i < n - 1
          ensures !(IsTerminal(recs[recs[id].children[i]]) && recs[recs[id].children[i]].term == tvm)
        {
          assert 0 <= i < n;
        }
      }
      PropsValue(recs, dt, id, n - 1);
      if IsTerminal(c) {
        assert c.term != tvm;
        GetPutOther(PropsUpTo(recs, dt, id, n - 1), c.term, c.value, tvm);
      }
    }
  }

  /** A terminal child's value sits under its term unless a later terminal child has the same term. */
  lemma {:induction false} PropsChild(recs: seq<Rec>, dt: Dict<string, Option<string>>, id: nat, n: nat, i: nat)
    requires Acyclic(recs) && id < |recs| && i < n <= |recs[id].children|
    requires IsTerminal(recs[recs[id].children[i]])
    requires forall j :: i < j < n ==> !IsTerminal(recs[recs[id].children[j]]) || recs[recs[id].children[j]].term != recs[recs[id].children[i]].term
    ensures Get(PropsUpTo(recs, dt, id, n), recs[recs[id].children[i]].term) == Some(recs[recs[id].children[i]].value)
  {
    var ci := recs[recs[id].children[i]];
    var c := recs[recs[id].children[n - 1]];
    var p := PropsUpTo(recs, dt, id, n - 1);
    if i == n - 1 {
      assert PropsUpTo(recs, dt, id, n) == Put(p, ci.term, ci.value);
      GetPutSame(p, ci.term, ci.value);
    } else {
      PropsChild(recs, dt, id, n - 1, i);
      if IsTerminal(c) {
        assert c.term != ci.term;
        assert PropsUpTo(recs, dt, id, n) == Put(p, c.term, c.value);
        GetPutOther(p, c.term, c.value, ci.term);
      } else {
        assert PropsUpTo(recs, dt, id, n) == p;
      }
    }
  }

  /** The row of record `c`, where `c` is `id` itself or a non-terminal record after it. */
  ghost predicate RowOfRecord(recs: seq<Rec>, dt: Dict<string, Option<string>>, id: nat, row: (string, Dict<string, string>))
    requires Acyclic(recs)
  {
    exists c :: id <= c < |recs| && (c == id || !IsTerminal(recs[c])) && row == (recs[c].qualified, Props(recs, dt, c))
  }

  /**
   * TermRecord.rows starts with the record's own row, and every row it
   * yields is the row of the record or of a non-terminal record below it:
   * terminal children appear only among their parent's properties.
   */
  lemma {:induction false} RowsAreRecords(recs: seq<Rec>, dt: Dict<string, Option<string>>, id: nat)
    requires Acyclic(recs) && id < |recs|
    ensures RecRows(recs, dt, id)[0] == (recs[id].qualified, Props(recs, dt, id))
    ensures forall j :: 0 <= j < |RecRows(recs, dt, id)| ==> RowOfRecord(recs, dt, id, RecRows(recs, dt, id)[j])
    decreases |recs| - id, 1
  {
    var rows := RecRows(recs, dt, id);
    var kids := ChildRows(recs, dt, id, 0);
    ChildRowsAreRecords(recs, dt, id, 0);
    forall j | 0 <= j < |rows| ensures RowOfRecord(recs, dt, id, rows[j]) {
      if j == 0 {
        assert rows[0] == (recs[id].qualified, Props(recs, dt, id));
      } else {
        assert rows[j] == kids[j - 1];
        var c :| id < c < |recs| && !IsTerminal(recs[c]) && kids[j - 1] == (recs[c].qualified, Props(recs, dt, c));
      }
    }
  }

  lemma {:induction false} ChildRowsAreRecords(recs: seq<Rec>, dt: Dict<string, Option<string>>, id: nat, k: nat)
    requires Acyclic(recs) && id < |recs| && k <= |recs[id].children|
    ensures forall j :: 0 <= j < |ChildRows(recs, dt, id, k)| ==>
      exists c :: id < c < |recs| && !IsTerminal(recs[c]) && ChildRows(recs, dt, id, k)[j] == (recs[c].qualified, Props(recs, dt, c))
    decreases |recs| - id, 0, |recs[id].children| - k
  {
    if k < |recs[id].children| {
      var c := recs[id].children[k];
      var rest := ChildRows(recs, dt, id, k + 1);
      var own := if IsTerminal(recs[c]) then [] else RecRows(recs, dt, c);
      ChildRowsAreRecords(recs, dt, id, k + 1);
      if !IsTerminal(recs[c]) {
        RowsAreRecords(recs, dt, c);
      }
      var rows := ChildRows(recs, dt, id, k);
      assert rows == own + rest;
      forall j | 0 <= j < |rows|
        ensures exists c' :: id < c' < |recs| && !IsTerminal(recs[c']) && rows[j] == (recs[c'].qualified, Props(recs, dt, c'))
      {
        if j < |own| {
          assert RowOfRecord(recs, dt, c, own[j]);
          var c' :| c <= c' < |recs| && (c' == c || !IsTerminal(recs[c'])) && own[j] == (recs[c'].qualified, Props(recs, dt, c'));
          assert rows[j] == own[j];
        } else {
          assert rows[j] == rest[j - |own|];
        }
      }
    }
  }

  // ---------------------------------------------------------------------
  // Section.args and Section.rows

  /** The dict's pairs with lower-cased keys. */
  function LowerPairs(d: Dict<string, string>): (r: Dict<string, string>)
    ensures |r| == |d| && forall i :: 0 <= i < |d| ==> r[i] == (Lower(d[i].0), d[i].1)
  {
    if d == [] then [] else [(Lower(d[0].0), d[0].1)] + LowerPairs(d[1..])
  }

  /** `{k.lower(): v for k, v in d.items()}`: a later key with the same lower-case form overwrites the value. */
  function LowerKeys(d: Dict<string, string>): Dict<string, string>
  {
    FromPairs(LowerPairs(d))
  }

  /** The args loop over `names` from the lower-cased dict `ld`: each entry's value or '', each consumed key deleted. */
  function ArgsFrom(names: seq<string>, ld: Dict<string, string>): (r: (seq<string>, Dict<string, string>))
    ensures |r.0| == |names|
  {
    if names == [] then ([], ld)
    else
      var n := Lower(names[0]);
      var rest := ArgsFrom(names[1..], Remove(ld, n));
      ([GetOr(ld, n, "")] + rest.0, rest.1)
  }

  /** The names whose argument slots Section.args fills: the term-value name, then the section's parameters. */
  function ArgNames(dt: Dict<string, Option<string>>, params: seq<string>, term: string): (r: seq<string>)
    ensures |r| == 1 + |params| && r[1..] == params
  {
    [TermValueName(dt, term)] + params
  }

  /** Section.args(term, d): the term, one argument per slot name, and the keys no slot name consumed. */
  function SectionArgs(dt: Dict<string, Option<string>>, params: seq<string>, term: string, d: Dict<string, string>): (r: (string, seq<string>, Dict<string, string>))
    ensures r.0 == term && |r.1| == 1 + |params|
    ensures forall k :: Has(r.2, k) <==> Has(LowerKeys(d), k) && k !in LowerAll(ArgNames(dt, params, term))
  {
    var names := ArgNames(dt, params, term);
    var a := ArgsFrom(names, LowerKeys(d));
    assert forall k :: Has(a.1, k) <==> Has(LowerKeys(d), k) && k !in LowerAll(names) by {
      forall k ensures Has(a.1, k) <==> Has(LowerKeys(d), k) && k !in LowerAll(names) {
        ArgsRemain(names, LowerKeys(d), k);
      }
    }
    (term, a.0, a.1)
  }

  function LowerAll(names: seq<string>): (r: seq<string>)
    ensures |r| == |names| && forall i :: 0 <= i < |names| ==> r[i] == Lower(names[i])
  {
    if names == [] then [] else [Lower(names[0])] + LowerAll(names[1..])
  }

  /** The keys left over are exactly the keys no slot name consumed. */
  lemma {:induction false} ArgsRemain(names: seq<string>, ld: Dict<string, string>, k: string)
    ensures Has(ArgsFrom(names, ld).1, k) <==> Has(ld, k) && k !in LowerAll(names)
  {
    if names != [] {
      var n := Lower(names[0]);
      ArgsRemain(names[1..], Remove(ld, n), k);
      GetRemove(ld, n, k);
      assert LowerAll(names) == [n] + LowerAll(names[1..]);
    }
  }

  /** Slot `i` holds the value of its lower-cased name, or '' when it is missing or an earlier slot consumed it. */
  lemma {:induction false} ArgsValue(names: seq<string>, ld: Dict<string, string>, i: nat)
    requires i < |names|
    ensures ArgsFrom(names, ld).0[i] == if Lower(names[i]) in LowerAll(names[..i]) then "" else GetOr(ld, Lower(names[i]), "")
  {
    var n := Lower(names[0]);
    if i > 0 {
      ArgsValue(names[1..], Remove(ld, n), i - 1);
      assert names[1..][i - 1] == names[i];
      assert LowerAll(names[..i]) == [n] + LowerAll(names[1..][..i - 1]) by {
        assert names[..i] == [names[0]] + names[1..][..i - 1];
      }
      GetRemove(ld, n, Lower(names[i]));
    } else {
      assert names[..0] == [];
    }
  }

  /** `term.split('.')[-1]`. */
  function LastSegment(s: string): (r: string)
    ensures '.' !in r
  {
    var parts := Split(s, '.');
    parts[|parts| - 1]
  }

  /** The rows for the keys left over: `<record>.<k>` and the value. */
  function RemainLines(last: string, remain: Dict<string, string>): (r: seq<(string, seq<string>)>)
    ensures |r| == |remain|
    ensures forall j :: 0 <= j < |remain| ==> r[j] == (last + "." + remain[j].0, [remain[j].1])
  {
    if remain == [] then [] else [(last + "." + remain[0].0, [remain[0].1])] + RemainLines(last, remain[1..])
  }

  /** Section.rows for one row of a term record: the term and its arguments, then one single-cell row per key left over. */
  function RecordLines(dt: Dict<string, Option<string>>, params: seq<string>, row: (string, Dict<string, string>)): (r: seq<(string, seq<string>)>)
    ensures |r| >= 1 && r[0].0 == row.0 && |r[0].1| == 1 + |params|
    ensures forall j :: 1 <= j < |r| ==> |r[j].1| == 1 && LastSegment(row.0) + "." <= r[j].0
  {
    var a := SectionArgs(dt, params, row.0, row.1);
    [(a.0, a.1)] + RemainLines(LastSegment(a.0), a.2)
  }

  /** Section.rows for one row: the first line is the term with one cell per slot, each later line names a key no slot consumed. */
  lemma RecordLinesShape(dt: Dict<string, Option<string>>, params: seq<string>, row: (string, Dict<string, string>), j: nat)
    requires j < |RecordLines(dt, params, row)|
    ensures RecordLines(dt, params, row)[0].0 == row.0 && |RecordLines(dt, params, row)[0].1| == 1 + |params|
    ensures j > 0 ==> exists k, v ::
      && RecordLines(dt, params, row)[j] == (LastSegment(row.0) + "." + k, [v])
      && Has(LowerKeys(row.1), k) && k !in LowerAll(ArgNames(dt, params, row.0))
  {
    var a := SectionArgs(dt, params, row.0, row.1);
    var lines := RecordLines(dt, params, row);
    if j > 0 {
      var p := a.2[j - 1];
      assert lines[j] == RemainLines(LastSegment(a.0), a.2)[j - 1];
      assert Has(a.2, p.0);
      ArgsRemain(ArgNames(dt, params, row.0), LowerKeys(row.1), p.0);
      assert lines[j] == (LastSegment(row.0) + "." + p.0, [p.1]);
    }
  }

  /** The rows of the records listed in `ids`, each through RecordLines. */
  function LinesOf(recs: seq<Rec>, dt: Dict<string, Option<string>>, params: seq<string>, rows: seq<(string, Dict<string, string>)>): seq<(string, seq<string>)>
  {
    if rows == [] then [] else LinesOf(recs, dt, params, rows[..|rows| - 1]) + RecordLines(dt, params, rows[|rows| - 1])
  }

  /** Section.rows: every row of every term, in order. */
  function SectionLines(recs: seq<Rec>, dt: Dict<string, Option<string>>, sec: Sec, n: nat): seq<(string, seq<string>)>
    requires Acyclic(recs) && n <= |sec.terms| && forall k :: 0 <= k < |sec.terms| ==> sec.terms[k] < |recs|
  {
    if n == 0 then []
    else SectionLines(recs, dt, sec, n - 1) + LinesOf(recs, dt, sec.params, RecRows(recs, dt, sec.terms[n - 1]))
  }

  // ---------------------------------------------------------------------
  // MetatabDoc.rows

  /**
   * `term.replace('root.', '').title()`: every 'root.' is dropped and the
   * rest title-cased. A leading 'root.' goes first, and a term without any
   * 'root.' is only title-cased.
   */
  function DisplayName(term: string): (r: string)
    ensures ROOT_DOT <= term ==> r == Title(Replace(term[|ROOT_DOT|..], ROOT_DOT, ""))
    ensures (forall i: nat :: !OccursAt(term, ROOT_DOT, i)) ==> r == Title(term)
  {
    if ROOT_DOT <= term then
      var x := term[|ROOT_DOT|..];
      assert term == ROOT_DOT + x;
      assert term[..|ROOT_DOT|] == ROOT_DOT;
      assert OccursAt(term, ROOT_DOT, 0);
      assert Replace(term, ROOT_DOT, "") == "" + Replace(x, ROOT_DOT, "");
      assert "" + Replace(x, ROOT_DOT, "") == Replace(x, ROOT_DOT, "");
      Title(Replace(term, ROOT_DOT, ""))
    else
      assert (forall i: nat :: !OccursAt(term, ROOT_DOT, i)) ==> Replace(term, ROOT_DOT, "") == term by {
        if forall i: nat :: !OccursAt(term, ROOT_DOT, i) {
          ReplaceAbsent(term, ROOT_DOT, "");
        }
      }
      Title(Replace(term, ROOT_DOT, ""))
  }

  /**
   * What MetatabDoc.rows emits for a section: every section but Root is
   * introduced by a blank row and a Section row naming it and its
   * parameters; then come its terms' rows.
   */
  function SectionBlock(recs: seq<Rec>, dt: Dict<string, Option<string>>, sec: Sec): (r: seq<seq<string>>)
    requires Acyclic(recs) && forall k :: 0 <= k < |sec.terms| ==> sec.terms[k] < |recs|
    ensures sec.name != ROOT_NAME ==> |r| >= 2 && r[..2] == [[""], ["Section", sec.name] + sec.params]
    ensures sec.name == ROOT_NAME ==> r == DisplayLines(SectionLines(recs, dt, sec, |sec.terms|))
  {
    (if sec.name != ROOT_NAME then [[""], ["Section", sec.name] + sec.params] else [])
      + DisplayLines(SectionLines(recs, dt, sec, |sec.terms|))
  }

  function DisplayLines(lines: seq<(string, seq<string>)>): (r: seq<seq<string>>)
    ensures |r| == |lines| && forall j :: 0 <= j < |lines| ==> r[j] == [DisplayName(lines[j].0)] + lines[j].1
  {
    if lines == [] then [] else [[DisplayName(lines[0].0)] + lines[0].1] + DisplayLines(lines[1..])
  }

  /** MetatabDoc.rows: each section's block, in the order the sections were made. */
  function DocRows(recs: seq<Rec>, secs: seq<Sec>, dt: Dict<string, Option<string>>, n: nat): seq<seq<string>>
    requires Table(recs, secs) && n <= |secs|
  {
    if n == 0 then []
    else
      TableAcyclic(recs, secs);
      assert SecOk(recs, secs, n - 1);
      DocRows(recs, secs, dt, n - 1) + SectionBlock(recs, dt, secs[n - 1])
  }

  /** Root.Title is written as Title. */
  lemma DisplayExample()
    ensures DisplayName("root.title") == "Title"
  {
    assert ROOT_DOT + "title" == "root.title";
    assert "root.title"[|ROOT_DOT|..] == "title";
    var t := "title";
    assert t[..5] != ROOT_DOT by { assert t[0] != ROOT_DOT[0]; }
    assert Replace(t, ROOT_DOT, "") == [t[0]] + Replace(t[1..], ROOT_DOT, "");
    assert Replace(t[1..], ROOT_DOT, "") == t[1..];
    assert Replace(t, ROOT_DOT, "") == t;
    assert TitleFrom("e", true) == "e";
    assert TitleFrom("le", true) == "le";
    assert TitleFrom("tle", true) == "tle";
    assert TitleFrom("itle", true) == "itle";
    assert TitleFrom(t, false) == "Title";
  }

  // ---------------------------------------------------------------------
  // The builder's document

  /** Section.__init__'s param_names: the given parameters, else the declared section's args, else none. */
  function ParamNames(ds: Dict<string, Option<seq<string>>>, name: string, params: Option<seq<string>>): (r: seq<string>)
    ensures params.Some? ==> r == params.value
    ensures params.None? && !Has(ds, Lower(name)) ==> r == []
  {
    match params
    case Some(ps) => ps
    case None =>
      var e := Get(ds, Lower(name));
      if e.Some? && e.value.Some? then e.value.value else []
  }

  class MetatabDoc {
    var declTerms: Dict<string, Option<string>>
    var declSections: Dict<string, Option<seq<string>>>
    /** Every TermRecord made for this document. */
    var recs: seq<Rec>
    /** `sections`: every Section made by new_section, in order. */
    var secs: seq<Sec>

    ghost predicate Valid()
      reads this
    {
      Table(recs, secs)
    }

    /** MetatabDoc(decl): the declarations loaded from `decl`, and no sections. */
    constructor(dt: Dict<string, Option<string>>, ds: Dict<string, Option<seq<string>>>)
      ensures Valid()
      ensures declTerms == dt && declSections == ds && recs == [] && secs == []
    {
      declTerms := dt;
      declSections := ds;
      recs := [];
      secs := [];
    }

    /** new_section(name, params): a new empty section, last in `sections`. */
    method NewSection(name: string, params: Option<seq<string>>) returns (s: nat)
      requires Valid()
      modifies this
      ensures Valid()
      ensures s == |old(secs)| && secs == old(secs) + [Sec(name, ParamNames(declSections, name, params), [])]
      ensures recs == old(recs) && declTerms == old(declTerms) && declSections == old(declSections)
    {
      s := |secs|;
      secs := secs + [Sec(name, ParamNames(declSections, name, params), [])];
      forall j | 0 <= j < |recs| ensures RecOk(recs, |secs|, j) {
        assert RecOk(recs, |old(secs)|, j);
      }
      forall t | 0 <= t < |secs| ensures SecOk(recs, secs, t) {
        if t < |old(secs)| {
          assert SecOk(recs, old(secs), t);
        }
      }
    }

    /** set_param_names(params): the given parameters, else the declared section's args. */
    method SetParamNames(s: nat, params: Option<seq<string>>)
      requires Valid() && s < |secs|
      modifies this
      ensures Valid()
      ensures secs == old(secs)[s := old(secs)[s].(params := ParamNames(declSections, old(secs)[s].name, params))]
      ensures recs == old(recs) && declTerms == old(declTerms) && declSections == old(declSections)
    {
      secs := secs[s := secs[s].(params := ParamNames(declSections, secs[s].name, params))];
      forall j | 0 <= j < |recs| ensures RecOk(recs, |secs|, j) {
        assert RecOk(recs, |old(secs)|, j);
      }
      forall t | 0 <= t < |secs| ensures SecOk(recs, secs, t) {
        assert SecOk(recs, old(secs), t);
      }
    }

    /** TermRecord(term, value, parent, section, **kwargs): the record appended to its parent's children, then one child per keyword argument. */
    method MakeRecord(term: string, value: string, parent: Option<nat>, s: nat, kwargs: seq<(string, string)>) returns (id: nat)
      requires Valid() && s < |secs|
      requires parent.Some? ==> parent.value < |recs| && recs[parent.value].section == s
      modifies this
      ensures Valid()
      ensures id == |old(recs)| && recs == Made(old(recs), term, value, parent, s, kwargs)
      ensures secs == old(secs) && declTerms == old(declTerms) && declSections == old(declSections)
    {
      MadeTable(recs, secs, term, value, parent, s, kwargs);
      id := |recs|;
      recs := MadeLoop(recs, term, value, parent, s, kwargs);
    }

    /** Section.new_term(term, value, **kwargs): a top-level record of section `s`, last among its terms. */
    method NewTerm(s: nat, term: string, value: string, kwargs: seq<(string, string)>) returns (id: nat)
      requires Valid() && s < |secs|
      modifies this
      ensures Valid()
      ensures id == |old(recs)| && recs == Made(old(recs), term, value, None, s, kwargs)
      ensures secs == old(secs)[s := old(secs)[s].(terms := old(secs)[s].terms + [id])]
      ensures declTerms == old(declTerms) && declSections == old(declSections)
    {
      id := MakeRecord(term, value, None, s, kwargs);
      assert recs[id].parent.None? && recs[id].section == s;
      assert SecOk(old(recs), secs, s);
      NewTermTable(old(recs), secs, recs, s, id);
      secs := secs[s := secs[s].(terms := secs[s].terms + [id])];
    }

    /** TermRecord.new_child(term, value, **kwargs): a child of record `p` in `p`'s section, last among its children. */
    method NewChild(p: nat, term: string, value: string, kwargs: seq<(string, string)>) returns (id: nat)
      requires Valid() && p < |recs|
      modifies this
      ensures Valid()
      ensures id == |old(recs)| && recs == Made(old(recs), term, value, Some(p), old(recs)[p].section, kwargs)
      ensures secs == old(secs) && declTerms == old(declTerms) && declSections == old(declSections)
    {
      assert RecOk(recs, |secs|, p);
      id := MakeRecord(term, value, Some(p), recs[p].section, kwargs);
    }

    /** Section.args(term, d): the slot loop, deleting each consumed key from the lower-cased dict. */
    method Args(s: nat, term: string, d: Dict<string, string>) returns (t: string, args: seq<string>, remain: Dict<string, string>)
      requires s < |secs|
      ensures (t, args, remain) == SectionArgs(declTerms, secs[s].params, term, d)
    {
      var names := [TermValueName(declTerms, term)] + secs[s].params;
      var ld := LowerKeys(d);
      args := [];
      assert names[0..] == names && args + ArgsFrom(names, ld).0 == ArgsFrom(names, ld).0;
      for i := 0 to |names|
        invariant ArgsFrom(names, LowerKeys(d)) == (args + ArgsFrom(names[i..], ld).0, ArgsFrom(names[i..], ld).1)
      {
        var n := Lower(names[i]);
        assert names[i..][0] == names[i] && names[i..][1..] == names[i + 1..];
        ghost var rest := ArgsFrom(names[i + 1..], Remove(ld, n));
        assert ArgsFrom(names[i..], ld) == ([GetOr(ld, n, "")] + rest.0, rest.1);
        ghost var prev := args;
        args := args + [GetOr(ld, n, "")];
        assert args + rest.0 == prev + ([GetOr(ld, n, "")] + rest.0);
        ld := Remove(ld, n);
      }
      assert names[|names|..] == [];
      assert args + [] == args;
      t := term;
      remain := ld;
    }
  }

  /** The record with its keyword children, built one child at a time as TermRecord.__init__ does with new_child. */
  method MadeLoop(recs: seq<Rec>, term: string, value: string, parent: Option<nat>, s: nat, kwargs: seq<(string, string)>) returns (rs: seq<Rec>)
    requires parent.Some? ==> parent.value < |recs|
    ensures rs == Made(recs, term, value, parent, s, kwargs)
  {
    var id := |recs|;
    var q := QualifiedTerm(ParentTerm(recs, parent), term);
    var base := Linked(recs, parent, id);
    rs := base + [Rec(term, value, parent, s, [], q)];
    for i := 0 to |kwargs|
      invariant |rs| == id + 1 + i
      invariant rs == base + [Rec(term, value, parent, s, Ids(id + 1, i), q)] + KwRecs(id, term, s, kwargs[..i])
    {
      var c := |rs|;
      ghost var prev := rs;
      rs := rs[id := rs[id].(children := rs[id].children + [c])]
        + [Rec(kwargs[i].0, kwargs[i].1, Some(id), s, [], QualifiedTerm(Some(term), kwargs[i].0))];
      KwStep(base, term, value, parent, s, q, kwargs, i, prev, rs);
    }
    assert kwargs[..|kwargs|] == kwargs;
  }

  /** One keyword child more: the record lists it last and it follows the earlier ones. */
  lemma KwStep(base: seq<Rec>, term: string, value: string, parent: Option<nat>, s: nat, q: string,
               kwargs: seq<(string, string)>, i: nat, prev: seq<Rec>, next: seq<Rec>)
    requires i < |kwargs|
    requires prev == base + [Rec(term, value, parent, s, Ids(|base| + 1, i), q)] + KwRecs(|base|, term, s, kwargs[..i])
    requires next == prev[|base| := prev[|base|].(children := prev[|base|].children + [|prev|])]
      + [Rec(kwargs[i].0, kwargs[i].1, Some(|base|), s, [], QualifiedTerm(Some(term), kwargs[i].0))]
    ensures next == base + [Rec(term, value, parent, s, Ids(|base| + 1, i + 1), q)] + KwRecs(|base|, term, s, kwargs[..i + 1])
  {
    var id := |base|;
    assert Ids(id + 1, i) + [|prev|] == Ids(id + 1, i + 1);
    var want := base + [Rec(term, value, parent, s, Ids(id + 1, i + 1), q)] + KwRecs(id, term, s, kwargs[..i + 1]);
    assert |next| == |want|;
    forall j | 0 <= j < |next| ensures next[j] == want[j] {
      if j > id + i {
        assert kwargs[..i + 1][i] == kwargs[i];
      } else if j > id {
        assert kwargs[..i + 1][j - id - 1] == kwargs[..i][j - id - 1];
      }
    }
  }
}
