// metatab/terms.py: the Term, SectionTerm and RootSectionTerm objects.
//
// Term objects are shared: the parser keeps them in `last_term_map`, adds
// them as children of other terms and registers them with their section and
// document, and later changes made through one reference are seen through all
// the others. The model therefore keeps every term object in one table
// (`seq<Node>`); a reference to a term is its index in that table, and a
// field update is a table update. Children are always created after their
// parent, so a child's index is larger than its parent's (`Ordered`); this
// bounds every walk down the tree.
module Terms {
  import opened Wrappers
  import opened Text
  import opened ODict
  import opened Scans
  import opened Sorting

  const ROOT_TERM := "root"
  const ELIDED_TERM := "<elided_term>"
  /** The full names of the root term and of section terms. */
  const ROOT_ROOT: string := ROOT_TERM + "." + ROOT_TERM
  const ROOT_SECTION: string := ROOT_TERM + "." + "section"

  /** Which class a term object is an instance of. */
  datatype Kind = Plain | Section | RootSection

  datatype Node = Node(
    kind: Kind,
    term: string,                  // the name as last assigned through the `term` setter
    parentTerm: string,
    recordTerm: string,
    value: Option<string>,
    args: seq<string>,
    row: Option<int>,
    col: Option<int>,
    fileType: Option<string>,
    parent: Option<nat>,           // the parent term object
    section: Option<nat>,          // the section term object
    termValueName: string,
    childPropertyType: string,
    valid: Option<bool>,
    children: seq<nat>,
    terms: seq<nat>,               // SectionTerm only: the root-level terms of the section
    headerArgs: seq<string>,       // SectionTerm only
    defaultTermValueName: string   // SectionTerm only
  )

  /** A declared term: its string properties and, once declared, its value set. */
  datatype TermDecl = TermDecl(props: Dict<string, string>, values: Option<Dict<Option<string>, Option<string>>>)

  /** A declared section: its argument names and the names of its terms. */
  datatype SectionDecl = SectionDecl(args: seq<string>, terms: seq<string>)

  /** The converted form of a term tree: str, None, list or dict. */
  datatype Val = VNone | VStr(s: string) | VList(items: seq<Val>) | VDict(d: Dict<string, Val>)

  /** A Python value is truthy when it is not None and not the empty string. */
  predicate Truthy(v: Option<string>) { v.Some? && v.value != "" }

  // ---------------------------------------------------------------------
  // Names

  /** Term.split_term: (parent, record) of a name. */
  function SplitTerm(term: string): (r: Result<(string, string)>)
    ensures '.' !in term ==> r == Ok((ROOT_TERM, Strip(term)))
    ensures r.Err? ==> r.error == ValueError
    ensures r.Ok? ==> '.' !in r.value.1 && Strip(r.value.1) == r.value.1
  {
    if '.' in term then
      var parts := Split(term, '.');
      if |parts| != 2 then Err(ValueError)
      else
        var p := Strip(parts[0]);
        StripKeepsOut(parts[1], '.');
        StripIdempotent(parts[1]);
        Ok((if p == "" then ELIDED_TERM else p, Strip(parts[1])))
    else
      StripKeepsOut(term, '.');
      StripIdempotent(term);
      Ok((ROOT_TERM, Strip(term)))
  }

  /** Term.split_term_lower. */
  function SplitTermLower(term: string): (r: Result<(string, string)>)
    ensures r.Ok? <==> SplitTerm(term).Ok?
    ensures r.Ok? ==> r.value == (Lower(SplitTerm(term).value.0), Lower(SplitTerm(term).value.1))
    ensures r.Err? ==> r.error == ValueError
  {
    var pr :- SplitTerm(term);
    Ok((Lower(pr.0), Lower(pr.1)))
  }

  /** Term.normalize_term: "parent.record", lower-cased. */
  function NormalizeTerm(term: string): Result<string>
  {
    var pr :- SplitTermLower(term);
    Ok(pr.0 + "." + pr.1)
  }

  function Join(n: Node): string { n.parentTerm + "." + n.recordTerm }

  function JoinLc(n: Node): string { Lower(n.parentTerm) + "." + Lower(n.recordTerm) }

  /** join_lc is join lower-cased; on lower-case names the two agree. */
  lemma JoinLcIsLowerJoin(n: Node)
    ensures JoinLc(n) == Lower(Join(n))
    ensures IsLower(n.parentTerm) && IsLower(n.recordTerm) ==> JoinLc(n) == Join(n)
  {
    LowerConcat(n.parentTerm, "." + n.recordTerm);
    LowerConcat(".", n.recordTerm);
    assert Lower(".") == ".";
    if IsLower(n.parentTerm) && IsLower(n.recordTerm) {
      LowerOfLower(n.parentTerm);
      LowerOfLower(n.recordTerm);
    }
  }

  predicate HasElidedParent(n: Node) { n.parentTerm == ELIDED_TERM }

  /** Term.is_arg_child: the term came from a column after the second. */
  predicate IsArgChild(n: Node) { n.col.Some? && n.col.value > 1 }

  predicate IsTerminal(n: Node) { n.children == [] }

  /** One pattern of term_is: exact (an unqualified pattern means root.<pattern>) or with `*`. */
  function TermIs(n: Node, v: string): (r: Result<bool>)
    ensures r.Err? ==> r.error == ValueError
  {
    var v := if '.' !in v then "root." + v else v;
    var pr :- SplitTermLower(v);
    Ok(
      || JoinLc(n) == Lower(v)
      || (pr.1 == "*" && pr.0 == Lower(n.parentTerm))
      || (pr.0 == "*" && pr.1 == Lower(n.recordTerm))
      || (pr.0 == "*" && pr.1 == "*"))
  }

  /** term_is with a list or tuple: any element matches (evaluated left to right). */
  function TermIsAny(n: Node, vs: seq<string>): Result<bool>
  {
    if vs == [] then Ok(false)
    else
      var b :- TermIs(n, vs[0]);
      if b then Ok(true) else TermIsAny(n, vs[1..])
  }

  /** term_is for a pattern that is known to split: the strict form used by the parser. */
  predicate Is(n: Node, v: string)
  {
    TermIs(n, v) == Ok(true)
  }

  // ---------------------------------------------------------------------
  // The table of term objects

  /** Every child of a term was created after it and refers to an existing term. */
  ghost predicate Ordered(ns: seq<Node>)
  {
    forall i, j :: 0 <= i < |ns| && 0 <= j < |ns[i].children| ==> i < ns[i].children[j] < |ns|
  }

  /** Term.__init__ (with the `term` setter): the new term object, not yet in the table. */
  function NewTerm(ns: seq<Node>, term: string, value: Option<string>, args: seq<string>,
                   row: Option<int>, col: Option<int>, fileType: Option<string>,
                   parent: Option<nat>, section: Option<nat>): (r: Result<Node>)
    requires parent.Some? ==> parent.value < |ns|
    ensures r.Ok? ==> r.value.children == [] && r.value.kind == Plain && r.value.terms == []
    ensures r.Ok? ==> r.value.parent == parent && r.value.section == section
    ensures r.Ok? ==> r.value.term == term && r.value.row == row && r.value.col == col && r.value.fileType == fileType
    ensures r.Ok? ==> r.value.value == (if Truthy(value) then Some(Strip(value.value)) else None)
  {
    var pr :- SplitTermLower(term);
    var pterm := if parent.Some? && pr.0 == ROOT_TERM then ns[parent.value].recordTerm else pr.0;
    if parent.Some? && Lower(ns[parent.value].recordTerm) != Lower(pterm) then Err(AssertionError)
    else
      Ok(Node(Plain, term, pterm, pr.1,
              if Truthy(value) then Some(Strip(value.value)) else None,
              StripAll(args), row, col, fileType, parent, section,
              "@value", "any", None, [], [], [], "@value"))
  }

  function StripAll(args: seq<string>): (r: seq<string>)
    ensures |r| == |args| && forall i :: 0 <= i < |args| ==> r[i] == Strip(args[i])
  {
    if args == [] then [] else [Strip(args[0])] + StripAll(args[1..])
  }

  /** MetatabDoc.section_args: the declared argument names of a section, or none. */
  function SectionArgs(decls: Dict<string, SectionDecl>, name: string): seq<string>
  {
    match Get(decls, Lower(name))
    case Some(sd) => sd.args
    case None => []
  }

  /**
   * SectionTerm.__init__ (and RootSectionTerm's call of it): args default to
   * the declared section arguments, `col` receives the row number, and the
   * name must be Root.Section or Root.Root.
   */
  function NewSection(ns: seq<Node>, kind: Kind, term: string, value: string, args: seq<string>,
                      row: Option<int>, fileType: Option<string>,
                      decls: Dict<string, SectionDecl>): (r: Result<Node>)
    requires kind != Plain
    ensures r.Ok? ==> r.value.kind == kind && r.value.children == [] && r.value.terms == []
    ensures r.Ok? ==> r.value.col == row && r.value.headerArgs == []
    ensures r.Ok? ==> r.value.parent.None? && r.value.section.None?
    ensures r.Ok? ==> r.value.term == term && r.value.row == row && r.value.fileType == fileType
  {
    var sargs := if args != [] then args else SectionArgs(decls, value);
    var t :- NewTerm(ns, term, Some(value), sargs, row, row, fileType, None, None);
    var t := t.(kind := kind);
    var a :- TermIs(t, "Root.Section");
    var b :- TermIs(t, "Root.Root");
    if a || b then Ok(t) else Err(AssertionError)
  }

  /** RootSectionTerm(): the root section, named Root.Root with the value Root. */
  function NewRoot(ns: seq<Node>, fileType: Option<string>, decls: Dict<string, SectionDecl>): Result<Node>
  {
    NewSection(ns, RootSection, "Root.Root", "Root", [], Some(0), fileType, decls)
  }

  /** The `term` setter, on an existing term object. */
  function SetTerm(ns: seq<Node>, id: nat, v: string): (r: Result<seq<Node>>)
    requires id < |ns| && (ns[id].parent.Some? ==> ns[id].parent.value < |ns|)
    ensures r.Ok? ==> |r.value| == |ns| && forall j :: 0 <= j < |ns| && j != id ==> r.value[j] == ns[j]
    ensures r.Ok? ==> r.value[id].term == v && r.value[id].children == ns[id].children
  {
    var n := ns[id];
    var pr :- SplitTermLower(v);
    var pterm := if n.parent.Some? && pr.0 == ROOT_TERM then ns[n.parent.value].recordTerm else pr.0;
    Ok(ns[id := n.(term := v, parentTerm := pterm, recordTerm := pr.1)])
  }

  /** Every reference held by a term (parent, section, children, section terms) is in the table. */
  ghost predicate Refs(ns: seq<Node>)
  {
    forall i :: 0 <= i < |ns| ==>
      && (ns[i].parent.Some? ==> ns[i].parent.value < |ns|)
      && (ns[i].section.Some? ==> ns[i].section.value < |ns|)
      && (forall k :: 0 <= k < |ns[i].terms| ==> ns[i].terms[k] < |ns|)
  }

  ghost predicate Valid(ns: seq<Node>) { Ordered(ns) && Refs(ns) }

  // ---------------------------------------------------------------------
  // Reading the tree

  /** Term.qualified_term: the parent object's record name when there is a parent, else root. */
  function QualifiedTerm(ns: seq<Node>, id: nat): (r: Result<string>)
    requires Valid(ns) && id < |ns|
    ensures r.Err? <==> ns[id].parent.None? && Lower(ns[id].parentTerm) != ROOT_TERM
  {
    var n := ns[id];
    if n.parent.None? && Lower(n.parentTerm) != ROOT_TERM then Err(AssertionError)
    else if n.parent.Some? then Ok(Lower(ns[n.parent.value].recordTerm) + "." + Lower(n.recordTerm))
    else Ok("root." + Lower(n.recordTerm))
  }

  /** SectionTerm.property_names: the Header args when there are any, else the section args. */
  function PropertyNames(s: Node): (r: seq<string>)
    ensures s.headerArgs != [] ==> r == s.headerArgs
    ensures s.headerArgs == [] ==> r == s.args
  {
    if s.headerArgs != [] then s.headerArgs else s.args
  }

  /**
   * The record name that find/find_first look for: a dotted name must name
   * this term as its parent (an assertion), and is split without stripping.
   */
  function ChildName(ns: seq<Node>, id: nat, term: string): (r: Result<string>)
    requires id < |ns|
    ensures '.' !in term ==> r == Ok(term)
    ensures r.Ok? ==> '.' !in r.value
  {
    if '.' in term then
      var parts := Split(term, '.');
      if |parts| != 2 then Err(ValueError)
      else if Lower(parts[0]) != Lower(ns[id].recordTerm) then Err(AssertionError)
      else Ok(parts[1])
    else Ok(term)
  }

  /** A child matches a record name, and a value unless the value is False (None here). */
  predicate Matches(c: Node, name: string, value: Option<Option<string>>)
  {
    Lower(c.recordTerm) == Lower(name) && (value.None? || c.value == value.value)
  }

  function Matching(ns: seq<Node>, cs: seq<nat>, name: string, value: Option<Option<string>>): (r: seq<nat>)
    requires forall k :: 0 <= k < |cs| ==> cs[k] < |ns|
    ensures forall k :: 0 <= k < |r| ==> r[k] in cs && Matches(ns[r[k]], name, value)
    ensures forall c :: c in cs && Matches(ns[c], name, value) ==> c in r
    ensures |r| <= |cs|
  {
    if cs == [] then []
    else
      var rest := Matching(ns, cs[1..], name, value);
      if Matches(ns[cs[0]], name, value) then [cs[0]] + rest else rest
  }

  /** Term.find: every matching child, in order. */
  function Find(ns: seq<Node>, id: nat, term: string, value: Option<Option<string>>): Result<seq<nat>>
    requires Valid(ns) && id < |ns|
  {
    var name :- ChildName(ns, id, term);
    Ok(Matching(ns, ns[id].children, name, value))
  }

  /** Term.find_first: the first matching child, or None. */
  function FindFirst(ns: seq<Node>, id: nat, term: string, value: Option<Option<string>>): (r: Result<Option<nat>>)
    requires Valid(ns) && id < |ns|
    ensures r.Ok? <==> ChildName(ns, id, term).Ok?
    ensures r.Ok? && r.value.Some? ==> r.value.value in ns[id].children
  {
    var found :- Find(ns, id, term, value);
    Ok(if found == [] then None else Some(found[0]))
  }

  /** Term.__getitem__: the term itself for its value name, else the first child of that name. */
  function GetItem(ns: seq<Node>, id: nat, item: string): (r: Result<nat>)
    requires Valid(ns) && id < |ns|
    ensures r.Ok? ==> r.value < |ns|
  {
    if Lower(item) == Lower(ns[id].termValueName) then Ok(id)
    else
      var c :- FindFirst(ns, id, item, None);
      if c.None? then Err(KeyError) else Ok(c.value)
  }

  /** Term.get_value: the value of self[item], or `default` when there is no such child. */
  function GetValue(ns: seq<Node>, id: nat, item: string, default: Option<string>): Result<Option<string>>
    requires Valid(ns) && id < |ns|
  {
    match GetItem(ns, id, item)
    case Ok(c) => Ok(ns[c].value)
    case Err(e) => if e == KeyError then Ok(default) else Err(e)
  }

  /** Term.props: record name to value of every child; a later child of the same name wins. */
  function Props(ns: seq<Node>, id: nat): Dict<string, Option<string>>
    requires Valid(ns) && id < |ns|
  {
    FromPairs(ChildPairs(ns, ns[id].children))
  }

  function ChildPairs(ns: seq<Node>, cs: seq<nat>): (r: seq<(string, Option<string>)>)
    requires forall k :: 0 <= k < |cs| ==> cs[k] < |ns|
    ensures |r| == |cs|
    ensures forall k :: 0 <= k < |cs| ==> r[k] == (Lower(ns[cs[k]].recordTerm), ns[cs[k]].value)
  {
    if cs == [] then [] else [(Lower(ns[cs[0]].recordTerm), ns[cs[0]].value)] + ChildPairs(ns, cs[1..])
  }

  function Zip(ks: seq<string>, vs: seq<string>): (r: seq<(string, Option<string>)>)
    ensures |r| == if |ks| < |vs| then |ks| else |vs|
    ensures forall k :: 0 <= k < |r| ==> r[k] == (ks[k], Some(vs[k]))
  {
    if ks == [] || vs == [] then [] else [(ks[0], Some(vs[0]))] + Zip(ks[1..], vs[1..])
  }

  /**
   * Term.arg_props: the section's property names (lower-cased) zipped with
   * the args, and the value under the lower-cased value name. A term without
   * a section raises AttributeError.
   */
  function ArgProps(ns: seq<Node>, id: nat): (r: Result<Dict<string, Option<string>>>)
    requires Valid(ns) && id < |ns|
    ensures r.Err? <==> ns[id].section.None?
    ensures r.Ok? ==> Get(r.value, Lower(ns[id].termValueName)) == Some(ns[id].value)
  {
    var n := ns[id];
    if n.section.None? then Err(AttributeError)
    else
      var names := LowerAll(PropertyNames(ns[n.section.value]));
      var d := Put(FromPairs(Zip(names, n.args)), Lower(n.termValueName), n.value);
      GetPutSame(FromPairs(Zip(names, n.args)), Lower(n.termValueName), n.value);
      Ok(d)
  }

  function LowerAll(xs: seq<string>): (r: seq<string>)
    ensures |r| == |xs| && forall k :: 0 <= k < |xs| ==> r[k] == Lower(xs[k])
  {
    if xs == [] then [] else [Lower(xs[0])] + LowerAll(xs[1..])
  }

  /** Term.all_props: arg_props updated with props. */
  function AllProps(ns: seq<Node>, id: nat): Result<Dict<string, Option<string>>>
    requires Valid(ns) && id < |ns|
  {
    var a :- ArgProps(ns, id);
    Ok(Update(a, Props(ns, id)))
  }

  /**
   * all_props has the keys of arg_props and of props; a key no child names
   * keeps its arg_props value. A term without a section raises, as
   * arg_props does.
   */
  lemma AllPropsMerged(ns: seq<Node>, id: nat, k: string)
    requires Valid(ns) && id < |ns|
    ensures AllProps(ns, id).Err? <==> ns[id].section.None?
    ensures AllProps(ns, id).Ok? ==>
      (Has(AllProps(ns, id).value, k) <==> Has(ArgProps(ns, id).value, k) || Has(Props(ns, id), k))
    ensures AllProps(ns, id).Ok? && !Has(Props(ns, id), k) ==>
      Get(AllProps(ns, id).value, k) == Get(ArgProps(ns, id).value, k)
  {
    if ns[id].section.Some? {
      var a := ArgProps(ns, id).value;
      var p := Props(ns, id);
      UpdateHas(a, p, k);
      HasKeys(p, k);
      if !Has(p, k) {
        UpdateOther(a, p, k);
      }
    }
  }

  /** Term.descendents: every term below `id`, parent before child, children in order. */
  function Descendents(ns: seq<Node>, id: nat): (r: seq<nat>)
    requires Valid(ns) && id < |ns|
    ensures forall k :: 0 <= k < |r| ==> id < r[k] < |ns|
    decreases |ns| - id, |ns[id].children| + 1
  {
    DescendentsOf(ns, id, ns[id].children)
  }

  function DescendentsOf(ns: seq<Node>, pid: nat, cs: seq<nat>): (r: seq<nat>)
    requires Valid(ns) && pid < |ns|
    requires forall k :: 0 <= k < |cs| ==> pid < cs[k] < |ns|
    ensures forall k :: 0 <= k < |r| ==> pid < r[k] < |ns|
    decreases |ns| - pid, |cs|
  {
    if cs == [] then [] else [cs[0]] + Descendents(ns, cs[0]) + DescendentsOf(ns, pid, cs[1..])
  }

  // ---------------------------------------------------------------------
  // Conversion to nested dicts (Term._convert_to_dict)

  /** The converted value of a term without children: its value, or None. */
  function LeafVal(v: Option<string>): Val
  {
    if v.Some? then VStr(v.value) else VNone
  }

  /**
   * Folding one converted child into the dict under its lower-cased record
   * name, by the child's property type: `scalar` overwrites; `sequence`
   * appends to a list, starting a new list when the key is absent or holds
   * something else; anything else stores the first value directly, appends
   * to a list, and promotes any other value to a two-element list. The
   * promotion reads the old value with the record name as it is, not
   * lower-cased; a record name comes from split_term_lower, so the two keys
   * agree, and `prev` below serves for both.
   */
  function Aggregate(d: Dict<string, Val>, c: Node, v: Val): Dict<string, Val>
  {
    var k := Lower(c.recordTerm);
    var prev := Get(d, k);
    if c.childPropertyType == "scalar" then Put(d, k, v)
    else if prev.Some? && prev.value.VList? then Put(d, k, VList(prev.value.items + [v]))
    else if c.childPropertyType == "sequence" || prev.None? then Put(d, k, if prev.None? && c.childPropertyType != "sequence" then v else VList([v]))
    else Put(d, k, VList([prev.value, v]))
  }

  /** Term.as_dict: a term without children is its value; otherwise a dict of its children. */
  function Convert(ns: seq<Node>, id: nat, replaceValueNames: bool): (r: Val)
    requires Ordered(ns) && id < |ns|
    ensures !r.VList?
    decreases |ns| - id, |ns[id].children| + 1
  {
    var n := ns[id];
    if n.children == [] then LeafVal(n.value)
    else VDict(WithValue(FoldChildren(ns, |ns| - id, n.children, [], replaceValueNames), n, replaceValueNames))
  }

  /** A truthy value goes under the lower-cased value name (or '@value' when names are not replaced). */
  function WithValue(d: Dict<string, Val>, n: Node, replaceValueNames: bool): Dict<string, Val>
  {
    if Truthy(n.value) then Put(d, if replaceValueNames then Lower(n.termValueName) else "@value", VStr(n.value.value))
    else d
  }

  /** The children loop of _convert_to_dict; `bound` exceeds |ns| - c for every child c. */
  function FoldChildren(ns: seq<Node>, bound: nat, cs: seq<nat>, d: Dict<string, Val>, replaceValueNames: bool): Dict<string, Val>
    requires Ordered(ns)
    requires forall k :: 0 <= k < |cs| ==> cs[k] < |ns| && |ns| - cs[k] < bound
    decreases bound, |cs|
  {
    if cs == [] then d
    else FoldChildren(ns, bound, cs[1..], Aggregate(d, ns[cs[0]], Convert(ns, cs[0], replaceValueNames)), replaceValueNames)
  }

  /** SectionTerm.as_dict: the section converted as if its terms were its children. */
  function SectionAsDict(ns: seq<Node>, sid: nat, replaceValueNames: bool): Val
    requires Valid(ns) && sid < |ns|
  {
    var s := ns[sid];
    assert forall k :: 0 <= k < |s.terms| ==> s.terms[k] < |ns|;
    if s.terms == [] then LeafVal(s.value)
    else VDict(WithValue(FoldChildren(ns, |ns| + 1, s.terms, [], replaceValueNames), s, replaceValueNames))
  }

  /**
   * RootSectionTerm.as_dict: '@value' is removed when value names are
   * replaced. When the root has no terms the result is its value, and the
   * `in` test is then a substring test; deleting from a string is a TypeError.
   */
  function RootAsDict(ns: seq<Node>, rid: nat, replaceValueNames: bool): (r: Result<Val>)
    requires Valid(ns) && rid < |ns|
    ensures r.Ok? && r.value.VDict? && replaceValueNames ==> !Has(r.value.d, "@value")
  {
    match SectionAsDict(ns, rid, replaceValueNames)
    case VDict(d) => Ok(VDict(if replaceValueNames then Remove(d, "@value") else d))
    case VStr(s) => if replaceValueNames && IsInfix("@value", s) then Err(TypeError) else Ok(VStr(s))
    case v => Ok(v)
  }

  /** Python's `p in s` on strings. */
  predicate IsInfix(p: string, s: string)
  {
    StartsWith(s, p) || (s != [] && IsInfix(p, s[1..]))
  }

  /** The method form of the children loop: a dict filled one child at a time. */
  method ConvertChildren(ns: seq<Node>, id: nat, replaceValueNames: bool) returns (d: Dict<string, Val>)
    requires Ordered(ns) && id < |ns|
    ensures d == FoldChildren(ns, |ns| - id, ns[id].children, [], replaceValueNames)
  {
    var cs := ns[id].children;
    d := [];
    var i := 0;
    while i < |cs|
      invariant 0 <= i <= |cs|
      invariant FoldChildren(ns, |ns| - id, cs, [], replaceValueNames)
             == FoldChildren(ns, |ns| - id, cs[i..], d, replaceValueNames)
    {
      var c := cs[i];
      d := Aggregate(d, ns[c], Convert(ns, c, replaceValueNames));
      assert cs[i..][1..] == cs[i + 1..];
      i := i + 1;
    }
  }

  // Properties of the conversion.

  /** The children of `cs` whose lower-cased record name is `k`. */
  function Keyed(ns: seq<Node>, cs: seq<nat>, k: string): (r: seq<nat>)
    requires forall j :: 0 <= j < |cs| ==> cs[j] < |ns|
    ensures forall j :: 0 <= j < |r| ==> r[j] in cs && Lower(ns[r[j]].recordTerm) == k
    ensures forall j :: 0 <= j < |r| ==> r[j] < |ns|
  {
    if cs == [] then []
    else if Lower(ns[cs[0]].recordTerm) == k then [cs[0]] + Keyed(ns, cs[1..], k)
    else Keyed(ns, cs[1..], k)
  }

  function ConvertAll(ns: seq<Node>, cs: seq<nat>, replaceValueNames: bool): (r: seq<Val>)
    requires Ordered(ns) && forall j :: 0 <= j < |cs| ==> cs[j] < |ns|
    ensures |r| == |cs| && forall j :: 0 <= j < |cs| ==> r[j] == Convert(ns, cs[j], replaceValueNames)
  {
    if cs == [] then [] else [Convert(ns, cs[0], replaceValueNames)] + ConvertAll(ns, cs[1..], replaceValueNames)
  }

  /** A child filed under another key leaves key `k` alone. */
  lemma AggregateOther(d: Dict<string, Val>, c: Node, v: Val, k: string)
    requires Lower(c.recordTerm) != k
    ensures Get(Aggregate(d, c, v), k) == Get(d, k)
  {
    var kc := Lower(c.recordTerm);
    var prev := Get(d, kc);
    GetPutOther(d, kc, v, k);
    GetPutOther(d, kc, VList([v]), k);
    if prev.Some? {
      GetPutOther(d, kc, VList([prev.value, v]), k);
      if prev.value.VList? {
        GetPutOther(d, kc, VList(prev.value.items + [v]), k);
      }
    }
  }

  lemma AggregateStarts(d: Dict<string, Val>, c: Node, v: Val)
    requires Get(d, Lower(c.recordTerm)) == None
    ensures Get(Aggregate(d, c, v), Lower(c.recordTerm)) == Some(if c.childPropertyType == "sequence" then VList([v]) else v)
  {
    var k := Lower(c.recordTerm);
    GetPutSame(d, k, v);
    GetPutSame(d, k, VList([v]));
  }

  lemma AggregateAppends(d: Dict<string, Val>, c: Node, v: Val, xs: seq<Val>)
    requires c.childPropertyType != "scalar" && Get(d, Lower(c.recordTerm)) == Some(VList(xs))
    ensures Get(Aggregate(d, c, v), Lower(c.recordTerm)) == Some(VList(xs + [v]))
  {
    GetPutSame(d, Lower(c.recordTerm), VList(xs + [v]));
  }

  lemma AggregatePromotes(d: Dict<string, Val>, c: Node, v: Val, first: Val)
    requires c.childPropertyType != "scalar" && c.childPropertyType != "sequence"
    requires Get(d, Lower(c.recordTerm)) == Some(first) && !first.VList?
    ensures Get(Aggregate(d, c, v), Lower(c.recordTerm)) == Some(VList([first, v]))
  {
    GetPutSame(d, Lower(c.recordTerm), VList([first, v]));
  }

  /** Children with no child named `k` leave key `k` as it was. */
  lemma {:induction false} FoldOther(ns: seq<Node>, bound: nat, cs: seq<nat>, d: Dict<string, Val>, rvn: bool, k: string)
    requires Ordered(ns)
    requires forall j :: 0 <= j < |cs| ==> cs[j] < |ns| && |ns| - cs[j] < bound
    requires Keyed(ns, cs, k) == []
    ensures Get(FoldChildren(ns, bound, cs, d, rvn), k) == Get(d, k)
    decreases |cs|
  {
    if cs != [] {
      AggregateOther(d, ns[cs[0]], Convert(ns, cs[0], rvn), k);
      FoldOther(ns, bound, cs[1..], Aggregate(d, ns[cs[0]], Convert(ns, cs[0], rvn)), rvn, k);
    }
  }

  /** Folding a concatenation folds the first part, then the second. */
  lemma {:induction false} FoldAppend(ns: seq<Node>, bound: nat, a: seq<nat>, b: seq<nat>, d: Dict<string, Val>, rvn: bool)
    requires Ordered(ns)
    requires forall j :: 0 <= j < |a| ==> a[j] < |ns| && |ns| - a[j] < bound
    requires forall j :: 0 <= j < |b| ==> b[j] < |ns| && |ns| - b[j] < bound
    ensures FoldChildren(ns, bound, a + b, d, rvn) == FoldChildren(ns, bound, b, FoldChildren(ns, bound, a, d, rvn), rvn)
    decreases |a|
  {
    if a == [] {
      assert a + b == b;
    } else {
      var d1 := Aggregate(d, ns[a[0]], Convert(ns, a[0], rvn));
      assert (a + b)[0] == a[0] && (a + b)[1..] == a[1..] + b;
      assert FoldChildren(ns, bound, a + b, d, rvn) == FoldChildren(ns, bound, a[1..] + b, d1, rvn);
      assert FoldChildren(ns, bound, a, d, rvn) == FoldChildren(ns, bound, a[1..], d1, rvn);
      FoldAppend(ns, bound, a[1..], b, d1, rvn);
    }
  }

  /** scalar: the last child of a name wins, whatever came before it. */
  lemma ScalarLastWins(ns: seq<Node>, bound: nat, pre: seq<nat>, c: nat, post: seq<nat>, d: Dict<string, Val>, rvn: bool)
    requires Ordered(ns)
    requires forall j :: 0 <= j < |pre| ==> pre[j] < |ns| && |ns| - pre[j] < bound
    requires forall j :: 0 <= j < |post| ==> post[j] < |ns| && |ns| - post[j] < bound
    requires c < |ns| && |ns| - c < bound && ns[c].childPropertyType == "scalar"
    requires Keyed(ns, post, Lower(ns[c].recordTerm)) == []
    ensures Get(FoldChildren(ns, bound, pre + [c] + post, d, rvn), Lower(ns[c].recordTerm))
         == Some(Convert(ns, c, rvn))
  {
    var k := Lower(ns[c].recordTerm);
    var mid := FoldChildren(ns, bound, pre, d, rvn);
    FoldAppend(ns, bound, pre + [c], post, d, rvn);
    FoldAppend(ns, bound, pre, [c], d, rvn);
    assert [c][1..] == [];
    GetPutSame(mid, k, Convert(ns, c, rvn));
    FoldOther(ns, bound, post, FoldChildren(ns, bound, pre + [c], d, rvn), rvn, k);
  }

  /** The children of `cs` named `k` all have property type `t`. */
  ghost predicate AllTyped(ns: seq<Node>, cs: seq<nat>, k: string, t: string)
    requires forall j :: 0 <= j < |cs| ==> cs[j] < |ns|
  {
    forall j :: 0 <= j < |cs| && Lower(ns[cs[j]].recordTerm) == k ==> ns[cs[j]].childPropertyType == t
  }

  lemma Assoc(a: seq<Val>, b: seq<Val>, c: seq<Val>)
    ensures a + b + c == a + (b + c)
  {
  }

  lemma Pair(a: Val, b: Val)
    ensures [a, b] == [a] + [b]
  {
  }

  /** A leading child of name `k` heads the keyed list and its conversion. */
  lemma KeyedCons(ns: seq<Node>, cs: seq<nat>, k: string, rvn: bool)
    requires Ordered(ns) && forall j :: 0 <= j < |cs| ==> cs[j] < |ns|
    requires cs != [] && Lower(ns[cs[0]].recordTerm) == k
    ensures Keyed(ns, cs, k) == [cs[0]] + Keyed(ns, cs[1..], k)
    ensures ConvertAll(ns, Keyed(ns, cs, k), rvn) == [Convert(ns, cs[0], rvn)] + ConvertAll(ns, Keyed(ns, cs[1..], k), rvn)
  {
    var ks := Keyed(ns, cs[1..], k);
    assert ([cs[0]] + ks)[1..] == ks;
  }

  lemma {:induction false} AppendsFrom(ns: seq<Node>, bound: nat, cs: seq<nat>, d: Dict<string, Val>, rvn: bool,
                                      k: string, t: string, xs: seq<Val>)
    requires Ordered(ns)
    requires forall j :: 0 <= j < |cs| ==> cs[j] < |ns| && |ns| - cs[j] < bound
    requires t != "scalar"
    requires AllTyped(ns, cs, k, t) && Get(d, k) == Some(VList(xs))
    ensures Get(FoldChildren(ns, bound, cs, d, rvn), k) == Some(VList(xs + ConvertAll(ns, Keyed(ns, cs, k), rvn)))
    decreases |cs|
  {
    if cs == [] {
      assert xs + [] == xs;
    } else {
      var c := cs[0];
      var v := Convert(ns, c, rvn);
      var d1 := Aggregate(d, ns[c], v);
      assert FoldChildren(ns, bound, cs, d, rvn) == FoldChildren(ns, bound, cs[1..], d1, rvn);
      assert AllTyped(ns, cs[1..], k, t) by {
        forall j | 0 <= j < |cs[1..]| && Lower(ns[cs[1..][j]].recordTerm) == k
          ensures ns[cs[1..][j]].childPropertyType == t { assert cs[1..][j] == cs[j + 1]; }
      }
      if Lower(ns[c].recordTerm) == k {
        assert ns[c].childPropertyType == t;
        AggregateAppends(d, ns[c], v, xs);
        AppendsFrom(ns, bound, cs[1..], d1, rvn, k, t, xs + [v]);
        KeyedCons(ns, cs, k, rvn);
        Assoc(xs, [v], ConvertAll(ns, Keyed(ns, cs[1..], k), rvn));
      } else {
        AggregateOther(d, ns[c], v, k);
        AppendsFrom(ns, bound, cs[1..], d1, rvn, k, t, xs);
        assert Keyed(ns, cs, k) == Keyed(ns, cs[1..], k);
      }
    }
  }

  /** sequence: the key holds a list with one converted value per child of that name, in order. */
  lemma {:induction false} SequenceCollects(ns: seq<Node>, bound: nat, cs: seq<nat>, d: Dict<string, Val>, rvn: bool, k: string)
    requires Ordered(ns)
    requires forall j :: 0 <= j < |cs| ==> cs[j] < |ns| && |ns| - cs[j] < bound
    requires AllTyped(ns, cs, k, "sequence") && Get(d, k) == None
    ensures Get(FoldChildren(ns, bound, cs, d, rvn), k)
         == if Keyed(ns, cs, k) == [] then None else Some(VList(ConvertAll(ns, Keyed(ns, cs, k), rvn)))
    decreases |cs|
  {
    if cs != [] {
      var c := cs[0];
      var v := Convert(ns, c, rvn);
      var d1 := Aggregate(d, ns[c], v);
      assert FoldChildren(ns, bound, cs, d, rvn) == FoldChildren(ns, bound, cs[1..], d1, rvn);
      assert AllTyped(ns, cs[1..], k, "sequence") by {
        forall j | 0 <= j < |cs[1..]| && Lower(ns[cs[1..][j]].recordTerm) == k
          ensures ns[cs[1..][j]].childPropertyType == "sequence" { assert cs[1..][j] == cs[j + 1]; }
      }
      if Lower(ns[c].recordTerm) == k {
        AggregateStarts(d, ns[c], v);
        AppendsFrom(ns, bound, cs[1..], d1, rvn, k, "sequence", [v]);
        KeyedCons(ns, cs, k, rvn);
      } else {
        AggregateOther(d, ns[c], v, k);
        SequenceCollects(ns, bound, cs[1..], d1, rvn, k);
      }
    }
  }

  /**
   * any: no child of the name leaves the key absent, one child is stored as
   * its value, and two or more are collected into a list in order.
   */
  lemma {:induction false} AnyPromotes(ns: seq<Node>, bound: nat, cs: seq<nat>, d: Dict<string, Val>, rvn: bool, k: string)
    requires Ordered(ns)
    requires forall j :: 0 <= j < |cs| ==> cs[j] < |ns| && |ns| - cs[j] < bound
    requires AllTyped(ns, cs, k, "any") && Get(d, k) == None
    ensures var ks := Keyed(ns, cs, k);
      Get(FoldChildren(ns, bound, cs, d, rvn), k)
        == if ks == [] then None
           else if |ks| == 1 then Some(Convert(ns, ks[0], rvn))
           else Some(VList(ConvertAll(ns, ks, rvn)))
    decreases |cs|
  {
    if cs != [] {
      var c := cs[0];
      var v := Convert(ns, c, rvn);
      var d1 := Aggregate(d, ns[c], v);
      assert FoldChildren(ns, bound, cs, d, rvn) == FoldChildren(ns, bound, cs[1..], d1, rvn);
      assert AllTyped(ns, cs[1..], k, "any") by {
        forall j | 0 <= j < |cs[1..]| && Lower(ns[cs[1..][j]].recordTerm) == k
          ensures ns[cs[1..][j]].childPropertyType == "any" { assert cs[1..][j] == cs[j + 1]; }
      }
      if Lower(ns[c].recordTerm) == k {
        AggregateStarts(d, ns[c], v);
        AnyAfterFirst(ns, bound, cs[1..], d1, rvn, k, v);
        KeyedCons(ns, cs, k, rvn);
      } else {
        AggregateOther(d, ns[c], v, k);
        AnyPromotes(ns, bound, cs[1..], d1, rvn, k);
      }
    }
  }

  lemma {:induction false} AnyAfterFirst(ns: seq<Node>, bound: nat, cs: seq<nat>, d: Dict<string, Val>, rvn: bool, k: string, first: Val)
    requires Ordered(ns)
    requires forall j :: 0 <= j < |cs| ==> cs[j] < |ns| && |ns| - cs[j] < bound
    requires AllTyped(ns, cs, k, "any") && Get(d, k) == Some(first) && !first.VList?
    ensures var ks := Keyed(ns, cs, k);
      Get(FoldChildren(ns, bound, cs, d, rvn), k)
        == if ks == [] then Some(first) else Some(VList([first] + ConvertAll(ns, ks, rvn)))
    decreases |cs|
  {
    if cs != [] {
      var c := cs[0];
      var v := Convert(ns, c, rvn);
      var d1 := Aggregate(d, ns[c], v);
      assert FoldChildren(ns, bound, cs, d, rvn) == FoldChildren(ns, bound, cs[1..], d1, rvn);
      assert AllTyped(ns, cs[1..], k, "any") by {
        forall j | 0 <= j < |cs[1..]| && Lower(ns[cs[1..][j]].recordTerm) == k
          ensures ns[cs[1..][j]].childPropertyType == "any" { assert cs[1..][j] == cs[j + 1]; }
      }
      if Lower(ns[c].recordTerm) == k {
        AggregatePromotes(d, ns[c], v, first);
        AppendsFrom(ns, bound, cs[1..], d1, rvn, k, "any", [first, v]);
        KeyedCons(ns, cs, k, rvn);
        Assoc([first], [v], ConvertAll(ns, Keyed(ns, cs[1..], k), rvn));
        Pair(first, v);
      } else {
        AggregateOther(d, ns[c], v, k);
        AnyAfterFirst(ns, bound, cs[1..], d1, rvn, k, first);
        assert Keyed(ns, cs, k) == Keyed(ns, cs[1..], k);
      }
    }
  }

  /**
   * A term without children converts to its value; a term with children to a
   * dict holding a truthy value under its lower-cased value name.
   */
  lemma ConvertShape(ns: seq<Node>, id: nat)
    requires Ordered(ns) && id < |ns|
    ensures ns[id].children == [] ==> Convert(ns, id, true) == LeafVal(ns[id].value)
    ensures ns[id].children != [] ==> Convert(ns, id, true).VDict?
    ensures ns[id].children != [] && Truthy(ns[id].value) ==>
      Get(Convert(ns, id, true).d, Lower(ns[id].termValueName)) == Some(VStr(ns[id].value.value))
  {
    if ns[id].children != [] && Truthy(ns[id].value) {
      GetPutSame(FoldChildren(ns, |ns| - id, ns[id].children, [], true), Lower(ns[id].termValueName), VStr(ns[id].value.value));
    }
  }

  // ---------------------------------------------------------------------
  // Changing the tree

  /** The test `term_is("Datafile.Section")` that add_child and get_or_new_child assert against. */
  predicate IsDatafileSection(n: Node)
  {
    JoinLc(n) == "datafile.section"
  }

  /**
   * A pattern with a dot and no `*` matches exactly the terms whose
   * lower-cased joined name it is (so term_is("Datafile.Section") is
   * IsDatafileSection).
   */
  lemma TermIsExact(n: Node, v: string)
    requires '.' in v && SplitTermLower(v).Ok?
    requires SplitTermLower(v).value.0 != "*" && SplitTermLower(v).value.1 != "*"
    ensures TermIs(n, v) == Ok(JoinLc(n) == Lower(v))
  {
  }

  /**
   * Term.add_child: append the child and point it at its parent; a child
   * named Datafile.Section fails the closing assertion.
   */
  function AddChild(ns: seq<Node>, p: nat, c: nat): (r: Result<seq<Node>>)
    requires p < |ns| && c < |ns|
    ensures r.Err? <==> IsDatafileSection(ns[c])
    ensures r.Ok? ==> |r.value| == |ns| && r.value[c].parent == Some(p)
    ensures r.Ok? ==> r.value[p].children == ns[p].children + [c]
    ensures r.Ok? ==> forall j :: 0 <= j < |ns| && j != p && j != c ==> r.value[j] == ns[j]
    ensures r.Ok? ==> r.value[p] == ns[p].(parent := r.value[p].parent, children := ns[p].children + [c])
    ensures r.Ok? ==> r.value[c] == ns[c].(parent := Some(p), children := r.value[c].children)
  {
    var ns1 := ns[p := ns[p].(children := ns[p].children + [c])];
    var ns2 := ns1[c := ns1[c].(parent := Some(p))];
    // term_is reads only the names, which neither update changes
    if IsDatafileSection(ns[c]) then Err(AssertionError) else Ok(ns2)
  }

  /** Adding a later term as a child keeps the table well formed. */
  lemma AddChildValid(ns: seq<Node>, p: nat, c: nat)
    requires Valid(ns) && p < c < |ns|
    ensures AddChild(ns, p, c).Ok? ==> Valid(AddChild(ns, p, c).value)
  {
    var r := AddChild(ns, p, c);
    if r.Ok? {
      var ns2 := r.value;
      forall i, j | 0 <= i < |ns2| && 0 <= j < |ns2[i].children| ensures i < ns2[i].children[j] < |ns2| {
        if i == p {
          if j < |ns[p].children| { assert ns2[i].children[j] == ns[p].children[j]; }
        } else {
          assert ns2[i].children == ns[i].children;
        }
      }
      forall i | 0 <= i < |ns2|
        ensures && (ns2[i].parent.Some? ==> ns2[i].parent.value < |ns2|)
                && (ns2[i].section.Some? ==> ns2[i].section.value < |ns2|)
                && (forall k :: 0 <= k < |ns2[i].terms| ==> ns2[i].terms[k] < |ns2|)
      {
        assert ns2[i].section == ns[i].section && ns2[i].terms == ns[i].terms;
      }
    }
  }

  /**
   * Term.get_or_new_child: reuse the first child with the record name (its
   * value replaced unless `value` is False, modelled as None), or create one
   * named "<record>.<rt>" in this term's section. Result: the table and the child.
   */
  function GetOrNewChild(ns: seq<Node>, id: nat, term: string, value: Option<Option<string>>): (r: Result<(seq<Node>, nat)>)
    requires Valid(ns) && id < |ns|
    ensures r.Ok? ==> r.value.1 < |r.value.0| && |r.value.0| >= |ns|
  {
    var pr :- SplitTerm(term);
    var rt := pr.1;
    var c := FindFirst(ns, id, rt, None).value;   // rt has no dot, so the lookup cannot fail
    if c.None? then
      var t :- NewTerm(ns, ns[id].recordTerm + "." + rt, if value.Some? then value.value else None, [],
                       None, None, None, Some(id), ns[id].section);
      if IsDatafileSection(t) then Err(AssertionError)
      else Ok((AppendChild(ns, id, t), |ns|))
    else
      assert c.value in ns[id].children;
      Ok((if value.Some? then ns[c.value := ns[c.value].(value := value.value)] else ns, c.value))
  }

  /** A new term object appended to the table as the last child of `id`. */
  function AppendChild(ns: seq<Node>, id: nat, t: Node): (r: seq<Node>)
    requires id < |ns|
    ensures |r| == |ns| + 1 && r[|ns|] == t
    ensures r[id].children == ns[id].children + [|ns|]
    ensures forall j :: 0 <= j < |ns| && j != id ==> r[j] == ns[j]
    ensures r[id] == ns[id].(children := ns[id].children + [|ns|])
  {
    ns[id := ns[id].(children := ns[id].children + [|ns|])] + [t]
  }

  /** Matching depends only on the names and values of the candidates. */
  lemma {:induction false} MatchingFrame(ns: seq<Node>, ns2: seq<Node>, cs: seq<nat>, name: string, value: Option<Option<string>>)
    requires forall k :: 0 <= k < |cs| ==> cs[k] < |ns| && cs[k] < |ns2|
    requires forall k :: 0 <= k < |cs| ==> ns2[cs[k]].recordTerm == ns[cs[k]].recordTerm
    requires value.Some? ==> forall k :: 0 <= k < |cs| ==> ns2[cs[k]].value == ns[cs[k]].value
    ensures Matching(ns2, cs, name, value) == Matching(ns, cs, name, value)
  {
    if cs != [] {
      MatchingFrame(ns, ns2, cs[1..], name, value);
    }
  }

  lemma {:induction false} MatchingSnoc(ns: seq<Node>, cs: seq<nat>, x: nat, name: string, value: Option<Option<string>>)
    requires forall k :: 0 <= k < |cs| ==> cs[k] < |ns|
    requires x < |ns|
    ensures Matching(ns, cs + [x], name, value)
         == Matching(ns, cs, name, value) + (if Matches(ns[x], name, value) then [x] else [])
  {
    if cs == [] {
      assert [x][1..] == [];
    } else {
      assert (cs + [x])[1..] == cs[1..] + [x];
      MatchingSnoc(ns, cs[1..], x, name, value);
    }
  }

  lemma AppendChildValid(ns: seq<Node>, id: nat, t: Node)
    requires Valid(ns) && id < |ns|
    requires t.children == [] && t.terms == []
    requires t.parent.Some? ==> t.parent.value < |ns|
    requires t.section.Some? ==> t.section.value < |ns|
    ensures Valid(AppendChild(ns, id, t))
  {
    var ns2 := AppendChild(ns, id, t);
    forall i, j | 0 <= i < |ns2| && 0 <= j < |ns2[i].children| ensures i < ns2[i].children[j] < |ns2| {
      if i == id {
        if j < |ns[id].children| { assert ns2[i].children[j] == ns[id].children[j]; }
      } else if i < |ns| {
        assert ns2[i].children == ns[i].children;
      }
    }
    forall i | 0 <= i < |ns2|
      ensures && (ns2[i].parent.Some? ==> ns2[i].parent.value < |ns2|)
              && (ns2[i].section.Some? ==> ns2[i].section.value < |ns2|)
              && (forall k :: 0 <= k < |ns2[i].terms| ==> ns2[i].terms[k] < |ns2|)
    {
      if i < |ns| { assert ns2[i].parent == ns[i].parent && ns2[i].section == ns[i].section && ns2[i].terms == ns[i].terms; }
    }
  }

  /** Changing only a term's value keeps the table well formed. */
  lemma SetValueValid(ns: seq<Node>, c: nat, v: Option<string>)
    requires Valid(ns) && c < |ns|
    ensures Valid(ns[c := ns[c].(value := v)])
  {
    var ns2 := ns[c := ns[c].(value := v)];
    assert forall i :: 0 <= i < |ns| ==> ns2[i].children == ns[i].children && ns2[i].parent == ns[i].parent;
    assert forall i :: 0 <= i < |ns| ==> ns2[i].section == ns[i].section && ns2[i].terms == ns[i].terms;
  }

  /** get_or_new_child keeps the table well formed. */
  lemma GetOrNewChildValid(ns: seq<Node>, id: nat, term: string, value: Option<Option<string>>)
    requires Valid(ns) && id < |ns|
    ensures GetOrNewChild(ns, id, term, value).Ok? ==> Valid(GetOrNewChild(ns, id, term, value).value.0)
  {
    var r := GetOrNewChild(ns, id, term, value);
    if r.Ok? {
      var rt := SplitTerm(term).value.1;
      var c := FindFirst(ns, id, rt, None).value;
      if c.Some? {
        if value.Some? { SetValueValid(ns, c.value, value.value); }
      } else {
        var t := NewTerm(ns, ns[id].recordTerm + "." + rt, if value.Some? then value.value else None, [],
                         None, None, None, Some(id), ns[id].section).value;
        AppendChildValid(ns, id, t);
      }
    }
  }

  /** The record name of a term created as "<record>.<rt>" is rt, lower-cased. */
  lemma NewChildRecord(ns: seq<Node>, rec: string, rt: string, value: Option<string>, id: nat, section: Option<nat>)
    requires id < |ns| && '.' !in rt && Strip(rt) == rt
    requires NewTerm(ns, rec + "." + rt, value, [], None, None, None, Some(id), section).Ok?
    ensures NewTerm(ns, rec + "." + rt, value, [], None, None, None, Some(id), section).value.recordTerm == Lower(rt)
  {
    var full := rec + "." + rt;
    assert full == rec + ['.'] + rt;
    assert '.' in full by { assert full[|rec|] == '.'; }
    var parts := Split(full, '.');
    assert |parts| == 2;
    assert '.' !in rec by {
      SplitCount(full, '.');
      assert multiset(full) == multiset(rec) + multiset(['.']) + multiset(rt);
    }
    SplitPair(rec, rt, '.');
  }

  /** A new child appended after no child matched is the first match. */
  lemma NewChildFound(ns: seq<Node>, id: nat, rt: string, t: Node)
    requires Valid(ns) && id < |ns| && '.' !in rt
    requires Matching(ns, ns[id].children, rt, None) == []
    requires Lower(t.recordTerm) == Lower(rt)
    requires t.children == [] && t.terms == [] && t.parent == Some(id)
    requires t.section.Some? ==> t.section.value < |ns|
    ensures Valid(AppendChild(ns, id, t))
    ensures FindFirst(AppendChild(ns, id, t), id, rt, None) == Ok(Some(|ns|))
  {
    var ns2 := AppendChild(ns, id, t);
    AppendChildValid(ns, id, t);
    var cs := ns[id].children;
    assert forall k :: 0 <= k < |cs| ==> cs[k] != id && cs[k] < |ns|;
    MatchingFrame(ns, ns2, cs, rt, None);
    MatchingSnoc(ns2, cs, |ns|, rt, None);
  }

  /** get_or_new_child when a child of the name exists: that child, with the value replaced if given. */
  lemma GetOrNewChildReuses(ns: seq<Node>, id: nat, term: string, value: Option<Option<string>>, c: nat)
    requires Valid(ns) && id < |ns| && SplitTerm(term).Ok?
    requires FindFirst(ns, id, SplitTerm(term).value.1, None) == Ok(Some(c))
    ensures c < |ns|
    ensures GetOrNewChild(ns, id, term, value)
         == Ok((if value.Some? then ns[c := ns[c].(value := value.value)] else ns, c))
    ensures var ns2 := GetOrNewChild(ns, id, term, value).value.0;
      Valid(ns2) && FindFirst(ns2, id, SplitTerm(term).value.1, None) == Ok(Some(c))
  {
    var rt := SplitTerm(term).value.1;
    var ns2 := if value.Some? then ns[c := ns[c].(value := value.value)] else ns;
    if value.Some? { SetValueValid(ns, c, value.value); }
    assert ChildName(ns, id, rt) == Ok(rt);
    assert forall k :: 0 <= k < |ns[id].children| ==> ns[id].children[k] < |ns|;
    MatchingFrame(ns, ns2, ns[id].children, rt, None);
    assert ns2[id].children == ns[id].children;
  }

  /** get_or_new_child when no child of the name exists: a new last child named rt. */
  lemma GetOrNewChildCreates(ns: seq<Node>, id: nat, term: string, value: Option<Option<string>>)
    requires Valid(ns) && id < |ns| && SplitTerm(term).Ok?
    requires FindFirst(ns, id, SplitTerm(term).value.1, None) == Ok(None)
    ensures var r := GetOrNewChild(ns, id, term, value);
      r.Ok? ==>
        && r.value.1 == |ns| && |r.value.0| == |ns| + 1
        && r.value.0[id].children == ns[id].children + [|ns|]
        && Valid(r.value.0)
        && FindFirst(r.value.0, id, SplitTerm(term).value.1, None) == Ok(Some(|ns|))
  {
    var r := GetOrNewChild(ns, id, term, value);
    if r.Ok? {
      var rt := SplitTerm(term).value.1;
      var v := if value.Some? then value.value else None;
      var t := NewTerm(ns, ns[id].recordTerm + "." + rt, v, [], None, None, None, Some(id), ns[id].section).value;
      assert r == Ok((AppendChild(ns, id, t), |ns|));
      NewChildRecord(ns, ns[id].recordTerm, rt, v, id, ns[id].section);
      LowerIdempotent(rt);
      NewChildFound(ns, id, rt, t);
    }
  }

  /**
   * After get_or_new_child(rt, v), find_first(rt) is the child returned: an
   * existing child is reused and its value changes only when v is given; a
   * new child is appended last.
   */
  lemma GetOrNewChildFinds(ns: seq<Node>, id: nat, term: string, value: Option<Option<string>>)
    requires Valid(ns) && id < |ns|
    ensures var r := GetOrNewChild(ns, id, term, value);
      r.Ok? ==>
        && Valid(r.value.0)
        && FindFirst(r.value.0, id, SplitTerm(term).value.1, None) == Ok(Some(r.value.1))
  {
    var r := GetOrNewChild(ns, id, term, value);
    if r.Ok? {
      var rt := SplitTerm(term).value.1;
      assert ChildName(ns, id, rt) == Ok(rt);
      var c := FindFirst(ns, id, rt, None).value;
      if c.Some? {
        GetOrNewChildReuses(ns, id, term, value, c.value);
      } else {
        GetOrNewChildCreates(ns, id, term, value);
      }
    }
  }

  /**
   * Term.__setitem__: the value name or 'value' sets this term's value; None
   * for an existing child removes it, and removal always fails (the document
   * no longer holds the child, see RemoveTerm in the document model); any
   * other value goes through get_or_new_child and must then read back equal.
   */
  function SetItem(ns: seq<Node>, id: nat, item: string, value: Option<string>): (r: Result<seq<Node>>)
    requires Valid(ns) && id < |ns|
    ensures (Lower(item) == Lower(ns[id].termValueName) || Lower(item) == "value") ==>
      r == Ok(ns[id := ns[id].(value := value)])
  {
    if Lower(item) == Lower(ns[id].termValueName) || Lower(item) == "value" then Ok(ns[id := ns[id].(value := value)])
    else if value.None? then
      var c :- FindFirst(ns, id, item, None);
      if c.Some? then Err(ValueError) else Ok(ns)
    else
      var res :- GetOrNewChild(ns, id, item, Some(value));
      GetOrNewChildValid(ns, id, item, Some(value));
      var g :- GetItem(res.0, id, item);
      if res.0[g].value != value then Err(AssertionError) else Ok(res.0)
  }

  /** props: every child's name is a key, holding the value of the last child of that name. */
  lemma PropsLastWins(ns: seq<Node>, id: nat, i: nat)
    requires Valid(ns) && id < |ns| && i < |ns[id].children|
    requires forall j :: i < j < |ns[id].children| ==>
      Lower(ns[ns[id].children[j]].recordTerm) != Lower(ns[ns[id].children[i]].recordTerm)
    ensures Get(Props(ns, id), Lower(ns[ns[id].children[i]].recordTerm)) == Some(ns[ns[id].children[i]].value)
  {
    var cs := ns[id].children;
    assert forall k :: 0 <= k < |cs| ==> cs[k] < |ns|;
    UpdateLast([], ChildPairs(ns, cs), i);
  }

  // ---------------------------------------------------------------------
  // Rows for writing a term tree back out

  /** A (qualified term, properties) pair yielded by Term.rows. */
  datatype TermRow = TermRow(term: string, props: Dict<string, Option<string>>)

  /** decl_terms.get(term, {}).get('termvaluename', '@value'). */
  function DeclaredValueName(declTerms: Dict<string, TermDecl>, term: string): string
  {
    match Get(declTerms, term)
    case Some(td) => GetOr(td.props, "termvaluename", "@value")
    case None => "@value"
  }

  /** The terminal children with a non-empty name, as (name, value) pairs in order. */
  function TerminalPairs(ns: seq<Node>, cs: seq<nat>): (r: seq<(string, Option<string>)>)
    requires forall k :: 0 <= k < |cs| ==> cs[k] < |ns|
    ensures forall k :: 0 <= k < |r| ==> r[k].0 != ""
  {
    if cs == [] then []
    else
      var c := ns[cs[0]];
      var rest := TerminalPairs(ns, cs[1..]);
      if IsTerminal(c) && Lower(c.recordTerm) != "" then [(Lower(c.recordTerm), c.value)] + rest else rest
  }

  lemma {:induction false} TerminalPairsKeys(ns: seq<Node>, cs: seq<nat>, c: nat)
    requires forall k :: 0 <= k < |cs| ==> cs[k] < |ns|
    requires c in cs && IsTerminal(ns[c]) && Lower(ns[c].recordTerm) != ""
    ensures Lower(ns[c].recordTerm) in Keys(TerminalPairs(ns, cs))
  {
    var ps := TerminalPairs(ns, cs);
    if cs[0] == c {
      assert Keys(ps)[0] == Lower(ns[c].recordTerm);
    } else {
      TerminalPairsKeys(ns, cs[1..], c);
      var rest := TerminalPairs(ns, cs[1..]);
      var k := Lower(ns[c].recordTerm);
      var i :| 0 <= i < |Keys(rest)| && Keys(rest)[i] == k;
      if ps != rest {
        assert Keys(ps)[i + 1] == Keys(rest)[i];
      }
    }
  }

  /**
   * Term.rows: the term's own row, holding the value under the declared
   * value name and the value of each terminal child with a name, then the
   * rows of the non-terminal children, depth first. The declared value name
   * may not be empty.
   */
  function TermRows(ns: seq<Node>, id: nat, declTerms: Dict<string, TermDecl>): (r: Result<seq<TermRow>>)
    requires Valid(ns) && id < |ns|
    ensures r.Ok? ==> QualifiedTerm(ns, id).Ok? && |r.value| >= 1 && r.value[0].term == QualifiedTerm(ns, id).value
    decreases |ns| - id, |ns[id].children| + 1
  {
    if ns[id].section.None? then Err(AttributeError)
    else
      var qt :- QualifiedTerm(ns, id);
      var tvm := DeclaredValueName(declTerms, qt);
      if tvm == "" then Err(AssertionError)
      else
        var props := Update([(tvm, ns[id].value)], TerminalPairs(ns, ns[id].children));
        var rest :- ChildRows(ns, id, ns[id].children, declTerms);
        Ok([TermRow(qt, props)] + rest)
  }

  function ChildRows(ns: seq<Node>, pid: nat, cs: seq<nat>, declTerms: Dict<string, TermDecl>): Result<seq<TermRow>>
    requires Valid(ns) && pid < |ns|
    requires forall k :: 0 <= k < |cs| ==> pid < cs[k] < |ns|
    decreases |ns| - pid, |cs|
  {
    if cs == [] then Ok([])
    else
      var here :- if IsTerminal(ns[cs[0]]) then Ok([]) else TermRows(ns, cs[0], declTerms);
      var rest :- ChildRows(ns, pid, cs[1..], declTerms);
      Ok(here + rest)
  }

  /**
   * The first row of a term: props has exactly the declared value name and
   * the names of the named terminal children; the value name keeps the
   * term's value unless a terminal child has that name.
   */
  lemma TermRowProps(ns: seq<Node>, id: nat, declTerms: Dict<string, TermDecl>, k: string)
    requires Valid(ns) && id < |ns| && TermRows(ns, id, declTerms).Ok?
    ensures var props := TermRows(ns, id, declTerms).value[0].props;
      var tvm := DeclaredValueName(declTerms, QualifiedTerm(ns, id).value);
      && (Has(props, k) <==> k == tvm || k in Keys(TerminalPairs(ns, ns[id].children)))
      && (k == tvm && k !in Keys(TerminalPairs(ns, ns[id].children)) ==> Get(props, k) == Some(ns[id].value))
  {
    var tvm := DeclaredValueName(declTerms, QualifiedTerm(ns, id).value);
    var cs := ns[id].children;
    assert forall j :: 0 <= j < |cs| ==> cs[j] < |ns|;
    var e := TerminalPairs(ns, cs);
    UpdateHas([(tvm, ns[id].value)], e, k);
    assert Has([(tvm, ns[id].value)], k) <==> k == tvm by {
      if k == tvm { assert [(tvm, ns[id].value)][0].0 == k; }
    }
    if k == tvm && k !in Keys(e) {
      UpdateOther([(tvm, ns[id].value)], e, k);
    }
  }

  /** A section's positional arguments and the properties left over (SectionTerm._args). */
  function ArgsSplit(names: seq<string>, d: Dict<string, Option<string>>): (r: (seq<Option<string>>, Dict<string, Option<string>>))
    ensures |r.0| == |names|
  {
    if names == [] then ([], d)
    else
      var k := Lower(names[0]);
      var rest := ArgsSplit(names[1..], Remove(d, k));
      ([GetOr(d, k, Some(""))] + rest.0, rest.1)
  }

  /** {k.lower(): v for k, v in d.items()}. */
  function LowerKeys(d: Dict<string, Option<string>>): Dict<string, Option<string>>
  {
    FromPairs(LowerPairs(d))
  }

  function LowerPairs(d: Dict<string, Option<string>>): (r: seq<(string, Option<string>)>)
    ensures |r| == |d| && forall i :: 0 <= i < |d| ==> r[i] == (Lower(d[i].0), d[i].1)
  {
    if d == [] then [] else [(Lower(d[0].0), d[0].1)] + LowerPairs(d[1..])
  }

  /** The argument names of a row: the declared value name, then the section's property names. */
  function ArgNames(ns: seq<Node>, sid: nat, declTerms: Dict<string, TermDecl>, term: string): seq<string>
    requires sid < |ns|
  {
    [DeclaredValueName(declTerms, term)] + PropertyNames(ns[sid])
  }

  /** The loop of SectionTerm._args, taking and deleting one lower-cased name at a time. */
  method SplitArgs(names: seq<string>, d: Dict<string, Option<string>>) returns (args: seq<Option<string>>, remain: Dict<string, Option<string>>)
    ensures (args, remain) == ArgsSplit(names, d)
  {
    args := [];
    remain := d;
    var i := 0;
    while i < |names|
      invariant 0 <= i <= |names|
      invariant args + ArgsSplit(names[i..], remain).0 == ArgsSplit(names, d).0
      invariant ArgsSplit(names[i..], remain).1 == ArgsSplit(names, d).1
    {
      var k := Lower(names[i]);
      assert names[i..][1..] == names[i + 1..];
      args := args + [GetOr(remain, k, Some(""))];
      remain := Remove(remain, k);
      i := i + 1;
    }
    assert names[i..] == [];
    assert args + [] == args;
  }

  /**
   * _args: each argument is the property for that name (case-insensitive) or
   * '' when absent or already taken by an earlier equal name; the remainder
   * holds exactly the properties whose name was not consumed.
   */
  lemma {:induction false} ArgsSplitSpec(names: seq<string>, d: Dict<string, Option<string>>)
    ensures var r := ArgsSplit(names, d);
      && (forall i :: 0 <= i < |names| ==>
            r.0[i] == if Lower(names[i]) in LowerAll(names[..i]) then Some("") else GetOr(d, Lower(names[i]), Some("")))
      && (forall k :: Get(r.1, k) == if k in LowerAll(names) then None else Get(d, k))
  {
    if names != [] {
      var k := Lower(names[0]);
      var d1 := Remove(d, k);
      ArgsSplitSpec(names[1..], d1);
      var r := ArgsSplit(names, d);
      var rest := ArgsSplit(names[1..], d1);
      forall i | 0 <= i < |names|
        ensures r.0[i] == if Lower(names[i]) in LowerAll(names[..i]) then Some("") else GetOr(d, Lower(names[i]), Some(""))
      {
        if i > 0 {
          assert r.0[i] == rest.0[i - 1];
          assert names[1..][i - 1] == names[i];
          assert names[..i] == [names[0]] + names[1..][..i - 1];
          assert LowerAll(names[..i]) == [k] + LowerAll(names[1..][..i - 1]);
          GetRemove(d, k, Lower(names[i]));
        }
      }
      forall k2 ensures Get(r.1, k2) == if k2 in LowerAll(names) then None else Get(d, k2) {
        assert LowerAll(names) == [k] + LowerAll(names[1..]);
        GetRemove(d, k, k2);
      }
    }
  }

  /** A row written by SectionTerm.rows: a term with its positional args, or a property row. */
  datatype SectionRow = ArgsRow(term: string, args: seq<Option<string>>) | PropRow(term: string, value: Option<string>)

  /** term.split('.')[-1] */
  function LastSegment(term: string): string
  {
    var parts := Split(term, '.');
    parts[|parts| - 1]
  }

  function RemainRows(prefix: string, remain: Dict<string, Option<string>>): (r: seq<SectionRow>)
    ensures |r| == |remain|
    ensures forall i :: 0 <= i < |remain| ==> r[i] == PropRow(prefix + "." + remain[i].0, remain[i].1)
  {
    if remain == [] then [] else [PropRow(prefix + "." + remain[0].0, remain[0].1)] + RemainRows(prefix, remain[1..])
  }

  /** One term row as the section writes it: the args row, then one row per left-over property. */
  function RowOut(ns: seq<Node>, sid: nat, declTerms: Dict<string, TermDecl>, row: TermRow): (r: seq<SectionRow>)
    requires sid < |ns|
    ensures |r| >= 1 && r[0].ArgsRow? && r[0].term == row.term
    ensures |r[0].args| == 1 + |PropertyNames(ns[sid])|
  {
    var split := ArgsSplit(ArgNames(ns, sid, declTerms, row.term), LowerKeys(row.props));
    [ArgsRow(row.term, split.0)] + RemainRows(LastSegment(row.term), split.1)
  }

  function RowsOut(ns: seq<Node>, sid: nat, declTerms: Dict<string, TermDecl>, rows: seq<TermRow>): seq<SectionRow>
    requires sid < |ns|
  {
    if rows == [] then [] else RowOut(ns, sid, declTerms, rows[0]) + RowsOut(ns, sid, declTerms, rows[1..])
  }

  /** SectionTerm.rows: the rows of every term of the section, in order. */
  function SectionRows(ns: seq<Node>, sid: nat, declTerms: Dict<string, TermDecl>): Result<seq<SectionRow>>
    requires Valid(ns) && sid < |ns|
  {
    assert forall k :: 0 <= k < |ns[sid].terms| ==> ns[sid].terms[k] < |ns|;
    TermsRows(ns, sid, ns[sid].terms, declTerms)
  }

  function TermsRows(ns: seq<Node>, sid: nat, ts: seq<nat>, declTerms: Dict<string, TermDecl>): Result<seq<SectionRow>>
    requires Valid(ns) && sid < |ns|
    requires forall k :: 0 <= k < |ts| ==> ts[k] < |ns|
  {
    if ts == [] then Ok([])
    else
      var rows :- TermRows(ns, ts[0], declTerms);
      var rest :- TermsRows(ns, sid, ts[1..], declTerms);
      Ok(RowsOut(ns, sid, declTerms, rows) + rest)
  }

  // ---------------------------------------------------------------------
  // Sorting a section's terms (SectionTerm.sort_by_term)

  ghost predicate SortedByJoin(ns: seq<Node>, ts: seq<nat>)
    requires forall k :: 0 <= k < |ts| ==> ts[k] < |ns|
  {
    forall i, j :: 0 <= i < j < |ts| ==> StrLe(JoinLc(ns[ts[i]]), JoinLc(ns[ts[j]]))
  }

  /** join_lc of the term at an index, as a total function of the index. */
  function JoinKey(ns: seq<Node>): (key: nat -> string)
    ensures forall t: nat :: t < |ns| ==> key(t) == JoinLc(ns[t])
  {
    (t: nat) => if t < |ns| then JoinLc(ns[t]) else ""
  }

  /** sorted(ts, key=join_lc): a stable insertion sort, elements taken in order. */
  function SortByJoin(ns: seq<Node>, ts: seq<nat>): (r: seq<nat>)
    requires forall k :: 0 <= k < |ts| ==> ts[k] < |ns|
    ensures multiset(r) == multiset(ts)
    ensures forall k :: 0 <= k < |r| ==> r[k] < |ns|
  {
    var r := SortByKey(ts, JoinKey(ns));
    assert forall k :: 0 <= k < |r| ==> r[k] in multiset(ts);
    r
  }

  lemma SortByJoinSorted(ns: seq<Node>, ts: seq<nat>)
    requires forall k :: 0 <= k < |ts| ==> ts[k] < |ns|
    ensures SortedByJoin(ns, SortByJoin(ns, ts))
  {
    SortByKeySorted(ts, JoinKey(ns));
  }

  /** term_is on the term at an index, as a total function of the index. */
  function IsAt(ns: seq<Node>, tn: string): (f: nat -> Result<bool>)
    ensures forall t: nat :: t < |ns| ==> f(t) == TermIs(ns[t], tn)
  {
    (t: nat) => if t < |ns| then TermIs(ns[t], tn) else Ok(false)
  }

  /** The terms matching `tn` in order, and the others in order; term_is errors propagate. */
  function Partition(ns: seq<Node>, ts: seq<nat>, tn: string): (r: Result<(seq<nat>, seq<nat>)>)
    ensures r.Ok? ==> multiset(r.value.0) + multiset(r.value.1) == multiset(ts)
    ensures r.Ok? ==> forall k :: 0 <= k < |r.value.0| ==> r.value.0[k] in ts
    ensures r.Ok? ==> forall k :: 0 <= k < |r.value.1| ==> r.value.1[k] in ts
  {
    var r := PartitionOk(ts, IsAt(ns, tn));
    if r.Ok? then
      PartitionOkIn(ts, IsAt(ns, tn));
      r
    else r
  }

  /** Partition: the first part holds exactly the matching terms, the second the others. */
  lemma PartitionMatches(ns: seq<Node>, ts: seq<nat>, tn: string)
    requires forall k :: 0 <= k < |ts| ==> ts[k] < |ns|
    requires Partition(ns, ts, tn).Ok?
    ensures var p := Partition(ns, ts, tn).value;
      && (forall k :: 0 <= k < |p.0| ==> p.0[k] < |ns| && Is(ns[p.0[k]], tn))
      && (forall k :: 0 <= k < |p.1| ==> p.1[k] < |ns| && !Is(ns[p.1[k]], tn))
  {
    var f := IsAt(ns, tn);
    PartitionOkIn(ts, f);
    var p := Partition(ns, ts, tn).value;
    forall k | 0 <= k < |p.0| ensures p.0[k] < |ns| && Is(ns[p.0[k]], tn) {
      assert p.0[k] in p.0;
    }
    forall k | 0 <= k < |p.1| ensures p.1[k] < |ns| && !Is(ns[p.1[k]], tn) {
      assert p.1[k] in p.1;
    }
  }

  /** The `order` branch of sort_by_term: each entry's matches, in turn, then the rest sorted. */
  function OrderFirst(ns: seq<Node>, ts: seq<nat>, order: seq<string>): (r: Result<seq<nat>>)
    requires forall k :: 0 <= k < |ts| ==> ts[k] < |ns|
    ensures r.Ok? ==> multiset(r.value) == multiset(ts)
    ensures r.Ok? ==> forall k :: 0 <= k < |r.value| ==> r.value[k] < |ns|
    ensures order == [] ==> r == Ok(SortByJoin(ns, ts))
    decreases |order|
  {
    if order == [] then Ok(SortByJoin(ns, ts))
    else
      var parts :- Partition(ns, ts, order[0]);
      var tail :- OrderFirst(ns, parts.1, order[1..]);
      assert forall k :: 0 <= k < |parts.0| ==> parts.0[k] in ts;
      Ok(parts.0 + tail)
  }

  /**
   * sort_by_term: the section's terms reordered (a permutation), sorted by
   * join_lc when there is no order, otherwise the matches of each order
   * entry first.
   */
  function SortByTerm(ns: seq<Node>, sid: nat, order: Option<seq<string>>): (r: Result<seq<Node>>)
    requires Valid(ns) && sid < |ns|
    ensures r.Ok? ==> |r.value| == |ns| && forall j :: 0 <= j < |ns| && j != sid ==> r.value[j] == ns[j]
    ensures r.Ok? ==> r.value[sid] == ns[sid].(terms := r.value[sid].terms)
    ensures r.Ok? ==> multiset(r.value[sid].terms) == multiset(ns[sid].terms)
    ensures r.Ok? ==> forall k :: 0 <= k < |r.value[sid].terms| ==> r.value[sid].terms[k] < |ns|
    ensures order.None? ==> r.Ok? && SortedByJoin(ns, r.value[sid].terms)
  {
    var ts := ns[sid].terms;
    assert forall k :: 0 <= k < |ts| ==> ts[k] < |ns|;
    var sorted :- if order.None? then Ok(SortByJoin(ns, ts)) else OrderFirst(ns, ts, order.value);
    SortByJoinSorted(ns, ts);
    Ok(ns[sid := ns[sid].(terms := sorted)])
  }

  /** With an order, the first entry's matches come first, and nothing before them fails to match. */
  lemma OrderFirstHead(ns: seq<Node>, ts: seq<nat>, order: seq<string>)
    requires forall k :: 0 <= k < |ts| ==> ts[k] < |ns|
    requires order != [] && OrderFirst(ns, ts, order).Ok?
    ensures var m := Partition(ns, ts, order[0]).value.0;
      && m <= OrderFirst(ns, ts, order).value
      && forall k :: 0 <= k < |m| ==> m[k] < |ns| && Is(ns[m[k]], order[0])
  {
    PartitionMatches(ns, ts, order[0]);
  }

  // ---------------------------------------------------------------------
  // Properties of names and matching

  /** With exactly one dot, split_term gives the stripped halves, an empty parent being elided. */
  lemma SplitOneDot(a: string, b: string)
    requires '.' !in a && '.' !in b
    ensures SplitTerm(a + "." + b) == Ok((if Strip(a) == "" then ELIDED_TERM else Strip(a), Strip(b)))
  {
    var s := a + "." + b;
    assert s == a + ['.'] + b;
    assert s[|a|] == '.';
    SplitPair(a, b, '.');
  }

  /** More than one dot: the two-way unpacking raises ValueError. */
  lemma SplitManyDots(term: string)
    requires multiset(term)['.'] >= 2
    ensures SplitTerm(term) == Err(ValueError)
  {
    SplitCount(term, '.');
    assert '.' in term;
  }

  lemma StrippedName(s: string)
    requires Strip(s) == s && '.' !in s
    ensures Lower(Lower(s)) == Lower(s) && Strip(Lower(s)) == Lower(s) && '.' !in Lower(s)
  {
    LowerIdempotent(s);
    LowerStripped(s);
    assert forall i :: 0 <= i < |s| ==> Lower(s)[i] == LowerChar(s[i]);
  }

  lemma NamesPlain()
    ensures Strip(ELIDED_TERM) == ELIDED_TERM && '.' !in ELIDED_TERM
    ensures Strip(ROOT_TERM) == ROOT_TERM && '.' !in ROOT_TERM
  {
    StripPlain(ELIDED_TERM);
    StripPlain(ROOT_TERM);
  }

  /** The parent half of a split name is nonempty, stripped and free of dots. */
  lemma SplitTermParent(term: string)
    requires SplitTerm(term).Ok?
    ensures var p := SplitTerm(term).value.0; p != "" && Strip(p) == p && '.' !in p
  {
    NamesPlain();
    if '.' in term {
      var parts := Split(term, '.');
      StripIdempotent(parts[0]);
      StripKeepsOut(parts[0], '.');
    }
  }

  /** normalize_term is idempotent: a normalised name normalises to itself. */
  lemma NormalizeIdempotent(term: string)
    requires NormalizeTerm(term).Ok?
    ensures NormalizeTerm(NormalizeTerm(term).value) == NormalizeTerm(term)
  {
    var pr := SplitTerm(term).value;
    var p := Lower(pr.0);
    var r := Lower(pr.1);
    assert NormalizeTerm(term).value == p + "." + r;
    SplitTermParent(term);
    StrippedName(pr.1);
    StrippedName(pr.0);
    SplitOneDot(p, r);
    assert |p| == |pr.0|;
  }

  /** An unqualified pattern is matched as root.<pattern>. */
  lemma TermIsUnqualified(n: Node, v: string)
    requires '.' !in v
    ensures TermIs(n, v) == TermIs(n, "root." + v)
  {
    assert ("root." + v)[4] == '.';
  }

  /** `*` as parent or record matches any parent or record. */
  lemma TermIsWildcard(n: Node, v: string)
    requires '.' in v && SplitTermLower(v).Ok?
    ensures var pr := SplitTermLower(v).value;
      && (pr.0 == "*" && pr.1 == "*" ==> TermIs(n, v) == Ok(true))
      && (pr.1 == "*" && pr.0 == Lower(n.parentTerm) ==> TermIs(n, v) == Ok(true))
      && (pr.0 == "*" && pr.1 == Lower(n.recordTerm) ==> TermIs(n, v) == Ok(true))
      && (pr.0 != "*" && pr.1 != "*" ==> TermIs(n, v) == Ok(JoinLc(n) == Lower(v)))
  {
  }

  /** A list of patterns matches when one of them does (all of them splitting). */
  lemma {:induction false} TermIsAnyExists(n: Node, vs: seq<string>)
    requires forall i :: 0 <= i < |vs| ==> TermIs(n, vs[i]).Ok?
    ensures TermIsAny(n, vs) == Ok(exists i :: 0 <= i < |vs| && Is(n, vs[i]))
  {
    if vs != [] {
      TermIsAnyExists(n, vs[1..]);
      if !Is(n, vs[0]) {
        assert (exists i :: 0 <= i < |vs| && Is(n, vs[i])) <==> (exists i :: 0 <= i < |vs[1..]| && Is(n, vs[1..][i])) by {
          if exists i :: 0 <= i < |vs| && Is(n, vs[i]) {
            var i :| 0 <= i < |vs| && Is(n, vs[i]);
            assert vs[1..][i - 1] == vs[i];
          }
        }
      }
    }
  }

  /** The term setter: a name without a dot under a parent takes the parent's record as its parent name. */
  lemma SetTermUnqualified(ns: seq<Node>, id: nat, v: string)
    requires Valid(ns) && id < |ns| && ns[id].parent.Some? && '.' !in v
    ensures var r := SetTerm(ns, id, v);
      && r.Ok?
      && r.value[id].parentTerm == ns[ns[id].parent.value].recordTerm
      && r.value[id].recordTerm == Lower(Strip(v))
  {
    assert Lower(ROOT_TERM) == ROOT_TERM;
  }

  /** A word of lower-case letters is its own stripped and lower-cased form. */
  lemma PlainWord(w: string)
    requires forall i :: 0 <= i < |w| ==> 'a' <= w[i] <= 'z'
    ensures Strip(w) == w && IsLower(w) && '.' !in w && w != "*"
  {
    StripPlain(w);
    assert forall i :: 0 <= i < |w| ==> w[i] != '.' && w[i] != '*';
  }

  /** A pattern of two plain lower-case parts is matched exactly. */
  lemma TermIsPlainName(n: Node, a: string, b: string)
    requires a != "" && '.' !in a && '.' !in b && Strip(a) == a && Strip(b) == b
    requires IsLower(a) && IsLower(b) && a != "*" && b != "*"
    ensures TermIs(n, a + "." + b) == Ok(JoinLc(n) == a + "." + b)
  {
    var v := a + "." + b;
    assert '.' in v by {
      assert v[|a|] == '.';
    }
    assert SplitTerm(v) == Ok((a, b)) by {
      SplitOneDot(a, b);
    }
    assert SplitTermLower(v) == Ok((a, b)) by {
      LowerOfLower(a);
      LowerOfLower(b);
    }
    assert IsLower(v) by {
      forall i | 0 <= i < |v| ensures !IsUpperChar(v[i]) {
        if i < |a| {
          assert v[i] == a[i];
        } else if i > |a| {
          assert v[i] == b[i - |a| - 1];
        }
      }
    }
    LowerOfLower(v);
    TermIsExact(n, v);
  }
}
