// metatab/parser.py: TermParser.
//
// `generate_terms` is a generator that turns rows into term objects and
// `__iter__` consumes it, updating the parser's state for every term it
// receives before passing the term on. Because the generator is lazy, the
// interpreter's changes to a term (a synonym or a positional rename) are
// already visible when the generator goes on to name the term's argument
// children or to pick the file type of an include. The model runs the two
// in that same interleaving: at each point where the generator yields, the
// interpreter's step (`Interpret`) is applied to the term at once.
//
// The interpreter's locals (`last_parent_term`, `last_term_map`,
// `default_term_value_name`, `last_section`), the parser's fields
// (`_param_map`, `_declared_terms`, `_declared_sections`) and the terms
// yielded so far travel together as one state value (`PState`).
module Parser {
  import opened Wrappers
  import opened Text
  import opened ODict
  import opened Terms
  import opened TermObjects

  type Row = seq<string>

  const ROOT_HEADER: string := ROOT_TERM + "." + "header"
  const ROOT_INCLUDE: string := ROOT_TERM + "." + "include"
  const ROOT_DECLARE: string := ROOT_TERM + "." + "declare"
  const ROOT_DECLARESECTION: string := ROOT_TERM + "." + "declaresection"
  const ROOT_DECLARETERM: string := ROOT_TERM + "." + "declareterm"
  const VALUE_ANY: string := "value" + "." + "*"

  // ---------------------------------------------------------------------
  // The section parameter map

  /** An entry of `_param_map`: a lower-cased argument name, or the index of a blank argument. */
  datatype Param = Named(name: string) | Index(i: nat)

  /** str() of a parameter map entry. */
  function ParamStr(p: Param): string
  {
    match p
    case Named(s) => s
    case Index(i) => NatToString(i)
  }

  /** munge_param_map: each argument lower-cased, a blank one replaced by its index. */
  function Munge(args: seq<string>): (r: seq<Param>)
    ensures |r| == |args|
  {
    seq(|args|, i requires 0 <= i < |args| => if args[i] != "" then Named(Lower(args[i])) else Index(i))
  }

  /** Python's xs[k]: negative indexes count from the end; None is an IndexError. */
  function PyIndex<T>(xs: seq<T>, k: int): (r: Option<T>)
    ensures r.Some? <==> -|xs| <= k < |xs|
    ensures 0 <= k < |xs| ==> r == Some(xs[k])
  {
    if 0 <= k < |xs| then Some(xs[k])
    else if -|xs| <= k < 0 then Some(xs[|xs| + k])
    else None
  }

  /**
   * The positional rename: a record name that int() accepts and that indexes
   * the parameter map becomes str() of that entry; a ValueError or an
   * IndexError leaves the name alone.
   */
  function Remap(pm: seq<Param>, n: Node): (r: Node)
    ensures r == n.(recordTerm := r.recordTerm)
    ensures PyInt(n.recordTerm).None? ==> r == n
    ensures PyInt(n.recordTerm).Some? && PyIndex(pm, PyInt(n.recordTerm).value).None? ==> r == n
    ensures PyInt(n.recordTerm).Some? && PyIndex(pm, PyInt(n.recordTerm).value).Some? ==>
              r.recordTerm == ParamStr(PyIndex(pm, PyInt(n.recordTerm).value).value)
  {
    match PyInt(n.recordTerm)
    case None => n
    case Some(k) =>
      match PyIndex(pm, k)
      case None => n
      case Some(p) => n.(recordTerm := ParamStr(p))
  }

  // ---------------------------------------------------------------------
  // Synonyms, super terms and term classes

  /** The value of a declared property, when the declaration has it. */
  function Prop(d: TermDecl, k: string): Option<string>
  {
    Get(d.props, k)
  }

  /** One declared term's contribution to the synonyms dict. */
  function AddSynonym(syns: Dict<string, string>, e: (string, TermDecl)): Dict<string, string>
  {
    var k := Strip(e.0);
    var s := Prop(e.1, "synonym");
    if !Truthy(s) then syns
    else
      var s1 := Put(syns, Lower(k), s.value);
      if '.' !in k then Put(s1, ROOT_TERM + "." + Lower(k), s.value) else s1
  }

  /** TermParser.synonyms: built over the declared terms in order, later entries overwriting. */
  function Synonyms(dt: Dict<string, TermDecl>): Dict<string, string>
    decreases |dt|
  {
    if dt == [] then [] else AddSynonym(Synonyms(dt[..|dt| - 1]), dt[|dt| - 1])
  }

  /** substitute_synonym: a term whose join_lc is a synonym key takes the lower-cased split of the target. */
  function SubstituteSynonym(dt: Dict<string, TermDecl>, n: Node): (r: Result<Node>)
    ensures r.Ok? ==> r.value == n.(parentTerm := r.value.parentTerm, recordTerm := r.value.recordTerm)
    ensures !Has(Synonyms(dt), JoinLc(n)) ==> r == Ok(n)
    ensures Has(Synonyms(dt), JoinLc(n)) ==>
              var s := Get(Synonyms(dt), JoinLc(n)).value;
              && (r.Ok? <==> SplitTermLower(s).Ok?)
              && (r.Ok? ==> (r.value.parentTerm, r.value.recordTerm) == SplitTermLower(s).value)
  {
    match Get(Synonyms(dt), JoinLc(n))
    case None => Ok(n)
    case Some(s) =>
      var pr :- SplitTermLower(s);
      Ok(n.(parentTerm := pr.0, recordTerm := pr.1))
  }

  function AddSuper(sup: Dict<string, string>, e: (string, TermDecl)): Dict<string, string>
  {
    match Prop(e.1, "inheritsfrom")
    case None => sup
    case Some(s) => Put(sup, Lower(e.0), Lower(s))
  }

  /** TermParser.super_terms: declared name to the lower-cased name it inherits from. */
  function SuperTerms(dt: Dict<string, TermDecl>): Dict<string, string>
    decreases |dt|
  {
    if dt == [] then [] else AddSuper(SuperTerms(dt[..|dt| - 1]), dt[|dt| - 1])
  }

  /** The class registered for a lower-cased name in `term_classes`. */
  function Registered(tnl: string): Option<Kind>
  {
    if tnl == ROOT_SECTION then Some(Section)
    else if tnl == ROOT_ROOT then Some(RootSection)
    else None
  }

  /** get_term_class: the registered class, else the class of the super term, else Term. */
  function TermClass(dt: Dict<string, TermDecl>, name: string): (k: Kind)
    ensures Registered(Lower(name)).Some? ==> k == Registered(Lower(name)).value
    ensures Registered(Lower(name)).None? && !Has(SuperTerms(dt), Lower(name)) ==> k == Plain
  {
    var tnl := Lower(name);
    match Registered(tnl)
    case Some(k) => k
    case None =>
      match Get(SuperTerms(dt), tnl)
      case None => Plain
      case Some(s) => Registered(s).GetOr(Plain)
  }

  // ---------------------------------------------------------------------
  // Declarations

  /** install_declare_terms: the declarations needed to parse a declaration document. */
  function InstallDeclareTerms(): (Dict<string, TermDecl>, Dict<string, SectionDecl>)
  {
    var seqOf := (v: string) => TermDecl([("termvaluename", v), ("childpropertytype", "sequence")], None);
    ([("root.section", TermDecl([("termvaluename", "name")], None)),
      ("root.synonym", seqOf("term")),
      ("root.declareterm", seqOf("term")),
      ("root.declaresection", seqOf("section")),
      ("root.declarevalueset", seqOf("name")),
      ("declarevalueset.value", seqOf("value"))],
     [("root", SectionDecl([], [])),
      ("declaredterms", SectionDecl([], [])),
      ("declaredsections", SectionDecl([], []))])
  }

  /** The stripped non-blank arguments, in order. */
  function NonBlank(args: seq<string>): (r: seq<string>)
    ensures forall x :: x in r ==> x != "" && exists a :: a in args && x == Strip(a)
    ensures forall a :: a in args && Strip(a) != "" ==> Strip(a) in r
  {
    if args == [] then []
    else (if Strip(args[0]) != "" then [Strip(args[0])] else []) + NonBlank(args[1..])
  }

  /** add_declared_section: the section recorded under its lower-cased value, with no terms yet. */
  function DeclaredSection(ns: seq<Node>, t: nat, ds: Dict<string, SectionDecl>): (r: Result<Dict<string, SectionDecl>>)
    requires t < |ns| && Distinct(ds)
    ensures r.Err? <==> ns[t].value.None?
    ensures r.Err? ==> r.error == AttributeError
    ensures r.Ok? ==> Get(r.value, Lower(ns[t].value.value)) == Some(SectionDecl(NonBlank(ns[t].args), []))
    ensures r.Ok? ==> Distinct(r.value)
    ensures r.Ok? && ListsNoDup(ds) ==> ListsNoDup(r.value)
  {
    var n := ns[t];
    if n.value.None? then Err(AttributeError)
    else
      var d := Put(ds, Lower(n.value.value), SectionDecl(NonBlank(n.args), []));
      GetPutSame(ds, Lower(n.value.value), SectionDecl(NonBlank(n.args), []));
      PutKeepsDistinct(ds, Lower(n.value.value), SectionDecl(NonBlank(n.args), []));
      Ok(d)
  }

  /** `{k: v for k, v in arg_props.items() if v.strip()}`; a None value has no strip(). */
  function NonBlankProps(ap: Dict<string, Option<string>>): (r: Result<Dict<string, string>>)
    ensures r.Ok? ==> forall p :: p in r.value ==> Strip(p.1) != "" && (p.0, Some(p.1)) in ap
    ensures r.Ok? ==> forall p :: p in ap && p.1.Some? && Strip(p.1.value) != "" ==> (p.0, p.1.value) in r.value
    ensures r.Err? <==> exists p :: p in ap && p.1.None?
  {
    if ap == [] then Ok([])
    else
      var rest := NonBlankProps(ap[1..]);
      assert forall p :: p in ap <==> p == ap[0] || p in ap[1..];
      match ap[0].1
      case None => Err(AttributeError)
      case Some(v) =>
        var rest :- rest;
        Ok(if Strip(v) != "" then [(ap[0].0, v)] + rest else rest)
  }

  /** The term lists of the declared sections have no repeated name. */
  ghost predicate ListsNoDup(ds: Dict<string, SectionDecl>)
  {
    forall i :: 0 <= i < |ds| ==> NoDup(ds[i].1.terms)
  }

  /**
   * add_term_to_section: the declaration's term name is appended to the
   * term list of its section unless it is already there; a section that was
   * never declared raises DeclarationError.
   */
  function AddToSection(ds: Dict<string, SectionDecl>, td: TermDecl): (r: Result<Dict<string, SectionDecl>>)
    requires Distinct(ds)
    ensures !Has(ds, Lower(Prop(td, "section").GetOr(""))) ==> r == Err(DeclarationError)
    ensures r.Ok? ==> Distinct(r.value) && Keys(r.value) == Keys(ds)
    ensures r.Ok? ==> forall k :: k != Lower(Prop(td, "section").GetOr("")) ==> Get(r.value, k) == Get(ds, k)
    ensures r.Ok? ==> Has(ds, Lower(Prop(td, "section").GetOr(""))) && Prop(td, "section").Some? && Prop(td, "term").Some?
    ensures r.Ok? ==>
      var key := Lower(Prop(td, "section").GetOr(""));
      var sd := Get(ds, key).value;
      var term := Prop(td, "term").value;
      Get(r.value, key) == Some(sd.(terms := if term in sd.terms then sd.terms else sd.terms + [term]))
    ensures ListsNoDup(ds) && r.Ok? ==> ListsNoDup(r.value)
  {
    var key := Lower(Prop(td, "section").GetOr(""));
    match Get(ds, key)
    case None => Err(DeclarationError)
    case Some(sd) =>
      if Prop(td, "section").None? then Err(KeyError)   // td['section'] after the membership test
      else
      match Prop(td, "term")
      case None => Err(KeyError)
      case Some(term) =>
        if term in sd.terms then Ok(ds)
        else
          var sd2 := sd.(terms := sd.terms + [term]);
          var r := Put(ds, key, sd2);
          PutKeys(ds, key, sd2);
          PutKeepsDistinct(ds, key, sd2);
          GetPutSame(ds, key, sd2);
          forall k | k != key ensures Get(r, k) == Get(ds, k) { GetPutOther(ds, key, sd2, k); }
          forall i | 0 <= i < |ds| && ListsNoDup(ds) ensures NoDup(r[i].1.terms) {
            if ds[i].0 == key {
              GetDistinct(ds, key, i);
              NoDupSnoc(sd.terms, term);
            }
          }
          Ok(r)
  }

  /** Every key of `a` is still a key of `b`. */
  ghost predicate KeysGrow<V>(a: Dict<string, V>, b: Dict<string, V>)
  {
    forall k :: Has(a, k) ==> Has(b, k)
  }

  lemma PutGrows<V>(d: Dict<string, V>, k: string, v: V)
    ensures KeysGrow(d, Put(d, k, v)) && Has(Put(d, k, v), k)
  {
    var r := Put(d, k, v);
    forall k2 | Has(d, k2) ensures Has(r, k2) {
      var i :| 0 <= i < |d| && d[i].0 == k2;
      assert r[i].0 == k2;
    }
    GetPutSame(d, k, v);
  }

  /** The declaration of an inherited child: a copy with no InheritsFrom, renamed under the inheriting term. */
  function SubtypeDecl(d: TermDecl, name: string): TermDecl
  {
    d.(props := Put(Put(d.props, "inheritsfrom", ""), "term", name))
  }

  /**
   * One section term in the loop of add_declared_term over inherited_children:
   * a child of the inherited term `ihr` is copied as a child of `tr`, stored
   * and added to its section; any other term changes nothing.
   */
  function InheritChild(tr: string, ihr: string, stName: string,
                        dt: Dict<string, TermDecl>, ds: Dict<string, SectionDecl>): (r: Result<(Dict<string, TermDecl>, Dict<string, SectionDecl>)>)
    requires Distinct(ds)
    ensures !StartsWith(Lower(stName), Lower(ihr) + ".") ==> r == Ok((dt, ds))
    ensures r.Ok? ==> Distinct(r.value.1) && Keys(r.value.1) == Keys(ds) && KeysGrow(dt, r.value.0)
    ensures r.Ok? && ListsNoDup(ds) ==> ListsNoDup(r.value.1)
  {
    if !StartsWith(Lower(stName), Lower(ihr) + ".") then Ok((dt, ds))
    else
      var pr :- SplitTerm(stName);
      var d :- (match Get(dt, Lower(stName)) case Some(d) => Ok(d) case None => Err(KeyError));
      var sub := SubtypeDecl(d, tr + "." + pr.1);
      var name :- NormalizeTerm(tr + "." + pr.1);
      var dt1 := Put(dt, name, sub);
      PutGrows(dt, name, sub);
      var ds1 :- AddToSection(ds, sub);
      Ok((dt1, ds1))
  }

  /**
   * The loop of add_declared_term over inherited_children: the section's term
   * list is read afresh at every step, because the loop body may append to it.
   * `fuel` bounds the walk (see README).
   */
  function InheritFrom(fuel: nat, tr: string, ihr: string, secKey: string, i: nat,
                       dt: Dict<string, TermDecl>, ds: Dict<string, SectionDecl>): (r: Result<(Dict<string, TermDecl>, Dict<string, SectionDecl>)>)
    requires Distinct(ds)
    ensures r.Ok? ==> Distinct(r.value.1) && Keys(r.value.1) == Keys(ds) && KeysGrow(dt, r.value.0)
    ensures r.Ok? && ListsNoDup(ds) ==> ListsNoDup(r.value.1)
    decreases fuel
  {
    match Get(ds, secKey)
    case None => Err(KeyError)
    case Some(sd) =>
      if i >= |sd.terms| then Ok((dt, ds))
      else if fuel == 0 then Err(Unsupported)
      else
        var p :- InheritChild(tr, ihr, sd.terms[i], dt, ds);
        InheritFrom(fuel - 1, tr, ihr, secKey, i + 1, p.0, p.1)
  }

  /**
   * inherited_children's checks before its loop: None when the declaration
   * inherits from nothing, otherwise the loop's bound, the inheriting and
   * inherited record names and the section key.
   */
  function InheritPlan(ds: Dict<string, SectionDecl>, td: TermDecl): (r: Result<Option<(nat, string, string, string)>>)
    ensures r == Ok(None) <==> !Truthy(Prop(td, "inheritsfrom"))
    ensures Truthy(Prop(td, "inheritsfrom")) && !Has(td.props, "section") ==> r == Err(DeclarationError)
    ensures r.Ok? && r.value.Some? ==> Has(ds, r.value.value.3)
  {
    if !Truthy(Prop(td, "inheritsfrom")) then Ok(None)
    else if Prop(td, "section").None? then Err(DeclarationError)
    else
      var t :- (match Prop(td, "term") case Some(s) => Ok(s) case None => Err(KeyError));
      var tp :- SplitTerm(t);
      var ip :- SplitTerm(Prop(td, "inheritsfrom").value);
      var secKey := Lower(Prop(td, "section").value);
      match Get(ds, secKey)
      case None => Err(KeyError)
      case Some(sd) => Ok(Some((2 * |sd.terms| + 1, tp.1, ip.1, secKey)))
  }

  /** inherited_children's checks, then its loop. */
  function Inherit(dt: Dict<string, TermDecl>, ds: Dict<string, SectionDecl>, td: TermDecl): (r: Result<(Dict<string, TermDecl>, Dict<string, SectionDecl>)>)
    requires Distinct(ds)
    ensures !Truthy(Prop(td, "inheritsfrom")) ==> r == Ok((dt, ds))
    ensures Truthy(Prop(td, "inheritsfrom")) && !Has(td.props, "section") ==> r == Err(DeclarationError)
    ensures r.Ok? ==> Distinct(r.value.1) && Keys(r.value.1) == Keys(ds) && KeysGrow(dt, r.value.0)
    ensures r.Ok? && ListsNoDup(ds) ==> ListsNoDup(r.value.1)
  {
    match InheritPlan(ds, td)
    case Err(e) => Err(e)
    case Ok(None) => Ok((dt, ds))
    case Ok(Some(p)) => InheritFrom(p.0, p.1, p.2, p.3, 0, dt, ds)
  }

  /**
   * add_declared_term: the declaration (its non-blank argument properties,
   * an empty value set and the raw name as `term`) stored under the
   * normalised name, added to its section, then its inherited children.
   */
  function DeclareTerm(ns: seq<Node>, t: nat, dt: Dict<string, TermDecl>, ds: Dict<string, SectionDecl>): (r: Result<(Dict<string, TermDecl>, Dict<string, SectionDecl>)>)
    requires Valid(ns) && t < |ns| && Distinct(ds)
    ensures ns[t].value.None? ==> r == Err(TypeError)
    ensures r.Ok? ==> ns[t].value.Some? && NormalizeTerm(ns[t].value.value).Ok?
    ensures r.Ok? ==> Has(r.value.0, NormalizeTerm(ns[t].value.value).value) && KeysGrow(dt, r.value.0)
    ensures r.Ok? ==> Distinct(r.value.1) && Keys(r.value.1) == Keys(ds)
    ensures r.Ok? && ListsNoDup(ds) ==> ListsNoDup(r.value.1)
  {
    var n := ns[t];
    if n.value.None? then Err(TypeError)    // normalize_term(None): `'.' in None`
    else
      var name :- NormalizeTerm(n.value.value);
      var ap :- ArgProps(ns, t);
      var props :- NonBlankProps(ap);
      var td := TermDecl(Put(Remove(props, "values"), "term", n.value.value), Some([]));
      var dt1 := Put(dt, name, td);
      PutGrows(dt, name, td);
      var ds1 :- if Truthy(Prop(td, "section")) then AddToSection(ds, td) else Ok(ds);
      Inherit(dt1, ds1, td)
  }

  /** One declared term's part of add_value_set_value. */
  function AddValueOne(d: TermDecl, vs: string, value: Option<string>, disp: Option<string>): (r: Result<TermDecl>)
    ensures r.Ok? ==> r.value.props == d.props
    ensures r.Err? ==> r == Err(KeyError)
    ensures (Prop(d, "valuesetname").None? || Lower(Prop(d, "valuesetname").value) != vs) ==> r == Ok(d)
    ensures Prop(d, "valuesetname").Some? && Lower(Prop(d, "valuesetname").value) == vs ==>
              && (r.Err? <==> d.values.None?)
              && (r.Ok? ==> r.value.values.Some? && Has(r.value.values.value, value))
              && (r.Ok? && Has(d.values.value, value) ==> r.value == d)
              && (r.Ok? && !Has(d.values.value, value) ==> r.value.values == Some(d.values.value + [(value, disp)]))
  {
    match Prop(d, "valuesetname")
    case None => Ok(d)
    case Some(s) =>
      if vs != Lower(s) then Ok(d)
      else
        match d.values
        case None => Err(KeyError)
        case Some(vals) =>
          if Has(vals, value) then Ok(d)
          else
            assert (vals + [(value, disp)])[|vals|].0 == value;
            Ok(d.(values := Some(vals + [(value, disp)])))
  }

  /** The loop of add_value_set_value over the declared terms, in order. */
  function AddValue(dt: Dict<string, TermDecl>, vs: string, value: Option<string>, disp: Option<string>): (r: Result<Dict<string, TermDecl>>)
    ensures r.Ok? ==> |r.value| == |dt| && Keys(r.value) == Keys(dt)
    ensures r.Ok? ==> forall i :: 0 <= i < |dt| ==> AddValueOne(dt[i].1, vs, value, disp) == Ok(r.value[i].1)
    ensures r.Err? <==> exists i :: 0 <= i < |dt| && AddValueOne(dt[i].1, vs, value, disp).Err?
    ensures r.Err? ==> r == Err(KeyError)
  {
    if dt == [] then Ok([])
    else
      var rest := AddValue(dt[1..], vs, value, disp);
      assert forall i :: 1 <= i < |dt| ==> dt[1..][i - 1] == dt[i];
      match AddValueOne(dt[0].1, vs, value, disp)
      case Err(e) => Err(e)
      case Ok(e) =>
        match rest
        case Err(e2) =>
          var j :| 0 <= j < |dt[1..]| && AddValueOne(dt[1..][j].1, vs, value, disp).Err?;
          assert dt[j + 1] == dt[1..][j];
          Err(e2)
        case Ok(rs) =>
          var r := [(dt[0].0, e)] + rs;
          assert forall i :: 1 <= i < |dt| ==> r[i] == rs[i - 1];
          Ok(r)
  }

  /** add_value_set_value: the term's value (and display value) added to every declaration whose value set is the term's parent. */
  function AddValueSetValue(ns: seq<Node>, t: nat, dt: Dict<string, TermDecl>): (r: Result<Dict<string, TermDecl>>)
    requires Valid(ns) && t < |ns|
    ensures ns[t].parent.None? ==> r == Err(AttributeError)
    ensures r.Ok? ==> Keys(r.value) == Keys(dt)
  {
    var n := ns[t];
    match n.parent
    case None => Err(AttributeError)
    case Some(p) =>
      var vs := JoinLc(ns[p]);
      var ap :- ArgProps(ns, t);
      var disp := match Get(ap, "displayvalue") case Some(v) => v case None => None;
      AddValue(dt, vs, n.value, disp)
  }

  /** term_is('value.*'): the parent is Value (or the whole name is, literally, value.*). */
  predicate IsValueTerm(n: Node)
  {
    Lower(n.parentTerm) == "value" || JoinLc(n) == VALUE_ANY
  }

  /** manage_declare_terms: a term of a declaration document goes to the matching add_declared_* method. */
  function ManageDeclare(ns: seq<Node>, t: nat, dt: Dict<string, TermDecl>, ds: Dict<string, SectionDecl>): (r: Result<(Dict<string, TermDecl>, Dict<string, SectionDecl>)>)
    requires Valid(ns) && t < |ns| && Distinct(ds)
    ensures r.Ok? ==> Distinct(r.value.1)
    ensures JoinLc(ns[t]) != ROOT_DECLARESECTION && JoinLc(ns[t]) != ROOT_DECLARETERM && !IsValueTerm(ns[t]) ==> r == Ok((dt, ds))
  {
    var j := JoinLc(ns[t]);
    if j == ROOT_DECLARESECTION then
      var ds1 :- DeclaredSection(ns, t, ds);
      Ok((dt, ds1))
    else if j == ROOT_DECLARETERM then DeclareTerm(ns, t, dt, ds)
    else if IsValueTerm(ns[t]) then
      var dt1 :- AddValueSetValue(ns, t, dt);
      Ok((dt1, ds))
    else Ok((dt, ds))
  }

  // ---------------------------------------------------------------------
  // The interpreter (`__iter__`)

  /** The interpreter's locals, the parser's declarations and parameter map, and the terms yielded so far. */
  datatype PState = PState(
    nodes: seq<Node>,                  // every term object made so far
    root: nat,                         // the root section made by __iter__
    lastParent: string,                // last_parent_term
    lastTermMap: map<string, nat>,     // last_term_map
    defaultName: string,               // default_term_value_name
    lastSection: nat,                  // last_section
    paramMap: seq<Param>,              // _param_map
    declTerms: Dict<string, TermDecl>, // _declared_terms
    declSections: Dict<string, SectionDecl>,
    out: seq<nat>)                     // the terms yielded, in order

  ghost predicate Inv(st: PState)
  {
    && Valid(st.nodes)
    && st.root < |st.nodes| && st.lastSection < |st.nodes|
    && (forall k :: k in st.lastTermMap ==> st.lastTermMap[k] < |st.nodes|)
    && (forall i :: 0 <= i < |st.out| ==> st.out[i] < |st.nodes|)
    && Distinct(st.declSections)
  }

  /** What interpreting never changes: the cells a term was made from, and its class. */
  function Cells(n: Node): (Kind, string, Option<string>, seq<string>, Option<int>, Option<int>, Option<string>)
  {
    (n.kind, n.term, n.value, n.args, n.row, n.col, n.fileType)
  }

  ghost predicate SameCells(a: seq<Node>, b: seq<Node>)
  {
    |a| <= |b| && forall i :: 0 <= i < |a| ==> Cells(b[i]) == Cells(a[i])
  }

  /** Every term but `t` keeps its parent and record names. */
  ghost predicate NamesFixed(a: seq<Node>, b: seq<Node>, t: nat)
  {
    |a| <= |b| && forall i :: 0 <= i < |a| && i != t ==> (b[i].parentTerm, b[i].recordTerm) == (a[i].parentTerm, a[i].recordTerm)
  }

  lemma SameCellsTrans(a: seq<Node>, b: seq<Node>, c: seq<Node>)
    requires SameCells(a, b) && SameCells(b, c)
    ensures SameCells(a, c)
  {
  }

  lemma NamesFixedTrans(a: seq<Node>, b: seq<Node>, c: seq<Node>, t: nat)
    requires NamesFixed(a, b, t) && NamesFixed(b, c, t)
    ensures NamesFixed(a, c, t)
  {
  }

  /** A term replaced by a copy with the same children and section terms, referring only to existing terms. */
  lemma SetNodeValid(ns: seq<Node>, i: nat, n: Node)
    requires Valid(ns) && i < |ns|
    requires n.children == ns[i].children && n.terms == ns[i].terms
    requires n.parent.Some? ==> n.parent.value < |ns|
    requires n.section.Some? ==> n.section.value < |ns|
    ensures Valid(ns[i := n]) && NamesFixed(ns, ns[i := n], i)
    ensures Cells(n) == Cells(ns[i]) ==> SameCells(ns, ns[i := n])
  {
    var r := ns[i := n];
    forall j, k | 0 <= j < |r| && 0 <= k < |r[j].children| ensures j < r[j].children[k] < |r| {
      assert r[j].children == ns[j].children;
    }
    forall j | 0 <= j < |r|
      ensures && (r[j].parent.Some? ==> r[j].parent.value < |r|)
              && (r[j].section.Some? ==> r[j].section.value < |r|)
              && (forall k :: 0 <= k < |r[j].terms| ==> r[j].terms[k] < |r|)
    {
      assert r[j].terms == ns[j].terms;
    }
  }

  /** A section's term list with one more existing term. */
  lemma AppendTermValid(ns: seq<Node>, sec: nat, t: nat)
    requires Valid(ns) && sec < |ns| && t < |ns|
    ensures var r := ns[sec := ns[sec].(terms := ns[sec].terms + [t])];
      Valid(r) && SameCells(ns, r) && NamesFixed(ns, r, t)
  {
    var r := ns[sec := ns[sec].(terms := ns[sec].terms + [t])];
    forall j, k | 0 <= j < |r| && 0 <= k < |r[j].children| ensures j < r[j].children[k] < |r| {
      assert r[j].children == ns[j].children;
    }
    forall j | 0 <= j < |r|
      ensures && (r[j].parent.Some? ==> r[j].parent.value < |r|)
              && (r[j].section.Some? ==> r[j].section.value < |r|)
              && (forall k :: 0 <= k < |r[j].terms| ==> r[j].terms[k] < |r|)
    {
      if j == sec {
        forall k | 0 <= k < |r[j].terms| ensures r[j].terms[k] < |r| {
          if k < |ns[sec].terms| { assert r[j].terms[k] == ns[sec].terms[k]; }
        }
      }
    }
  }

  /** A new term without children or section terms, referring only to existing terms, added at the end. */
  lemma AppendNodeValid(ns: seq<Node>, n: Node)
    requires Valid(ns) && n.children == [] && n.terms == []
    requires n.parent.Some? ==> n.parent.value < |ns|
    requires n.section.Some? ==> n.section.value < |ns|
    ensures Valid(ns + [n])
  {
    var r := ns + [n];
    forall j, k | 0 <= j < |r| && 0 <= k < |r[j].children| ensures j < r[j].children[k] < |r| {
      assert r[j].children == ns[j].children;
    }
    forall j | 0 <= j < |r|
      ensures && (r[j].parent.Some? ==> r[j].parent.value < |r|)
              && (r[j].section.Some? ==> r[j].section.value < |r|)
              && (forall k :: 0 <= k < |r[j].terms| ==> r[j].terms[k] < |r|)
    {
      if j < |ns| { assert r[j] == ns[j]; }
    }
  }

  /** The renaming that opens each step: the synonym, the positional rename, then the section. */
  function Renamed(st: PState, t: nat): (r: Result<Node>)
    requires t < |st.nodes|
    ensures r.Ok? ==> r.value == st.nodes[t].(parentTerm := r.value.parentTerm, recordTerm := r.value.recordTerm, section := Some(st.lastSection))
  {
    var n1 :- SubstituteSynonym(st.declTerms, st.nodes[t]);
    Ok(Remap(st.paramMap, n1).(section := Some(st.lastSection)))
  }

  /** Which branch of the interpreter a term takes. */
  datatype Special = Header | SectionStart | RootStart | Valued

  function Classify(n: Node): Special
  {
    var j := JoinLc(n);
    if j == ROOT_HEADER then Header
    else if j == ROOT_SECTION then SectionStart
    else if j == ROOT_ROOT then RootStart
    else Valued
  }

  /** Root.Header: a new parameter map and default value name; the term is not yielded. */
  function HeaderStep(st: PState, t: nat): (r: Result<PState>)
    requires Inv(st) && t < |st.nodes|
    ensures r.Err? <==> st.nodes[t].value.None?
    ensures r.Ok? ==> Inv(r.value) && SameCells(st.nodes, r.value.nodes) && NamesFixed(st.nodes, r.value.nodes, t)
    ensures r.Ok? ==> |r.value.nodes| == |st.nodes|
    ensures r.Ok? ==> r.value == st.(nodes := r.value.nodes, paramMap := Munge(st.nodes[t].args), defaultName := Lower(st.nodes[t].value.value))
    ensures r.Ok? ==> r.value.nodes[st.lastSection].headerArgs == st.nodes[t].args
    ensures r.Ok? ==> r.value.nodes[t].recordTerm == st.nodes[t].recordTerm
    ensures r.Ok? ==> r.value.nodes[st.lastSection].defaultTermValueName == Lower(st.nodes[t].value.value)
  {
    var n := st.nodes[t];
    if n.value.None? then Err(AttributeError)
    else
      var dv := Lower(n.value.value);
      var s := st.nodes[st.lastSection];
      var s1 := s.(headerArgs := n.args, defaultTermValueName := dv);
      SetNodeValid(st.nodes, st.lastSection, s1);
      Ok(st.(nodes := st.nodes[st.lastSection := s1], paramMap := Munge(n.args), defaultName := dv))
  }

  /** Root.Section: a new parameter map, parentage reset to the root, the section becomes the current one. */
  function SectionStep(st: PState, t: nat): (r: PState)
    requires Inv(st) && t < |st.nodes|
    ensures Inv(r) && SameCells(st.nodes, r.nodes) && NamesFixed(st.nodes, r.nodes, t) && |r.nodes| == |st.nodes|
    ensures r == st.(nodes := r.nodes, paramMap := Munge(st.nodes[t].args), lastParent := st.nodes[st.root].recordTerm,
                     lastSection := t, defaultName := "@value")
    ensures r.nodes[t] == st.nodes[t].(section := None)
  {
    var n := st.nodes[t];
    SetNodeValid(st.nodes, t, n.(section := None));
    st.(nodes := st.nodes[t := n.(section := None)], paramMap := Munge(n.args),
        lastParent := st.nodes[st.root].recordTerm, lastSection := t, defaultName := "@value")
  }

  /** Root.Root: the root section becomes the current one. */
  function RootStep(st: PState, t: nat): (r: PState)
    requires Inv(st) && t < |st.nodes|
    ensures Inv(r) && SameCells(st.nodes, r.nodes) && NamesFixed(st.nodes, r.nodes, t) && |r.nodes| == |st.nodes|
    ensures r == st.(nodes := r.nodes, lastSection := t)
    ensures r.nodes[t] == st.nodes[t].(section := None)
  {
    var n := st.nodes[t];
    SetNodeValid(st.nodes, t, n.(section := None));
    st.(nodes := st.nodes[t := n.(section := None)], lastSection := t)
  }

  /** `_declared_terms.get(join, {}).get(k, default)`. */
  function DeclString(d: Option<TermDecl>, k: string, default: string): string
  {
    match d
    case None => default
    case Some(td) => Prop(td, k).GetOr(default)
  }

  /** add_child, when the parent is an earlier term; a later parent would close a cycle the table cannot hold. */
  function Attach(ns: seq<Node>, p: nat, t: nat): (r: Result<seq<Node>>)
    requires Valid(ns) && p < |ns| && t < |ns|
    ensures p < t ==> r == AddChild(ns, p, t)
    ensures r.Ok? ==> p < t && Valid(r.value) && SameCells(ns, r.value) && NamesFixed(ns, r.value, t) && |r.value| == |ns|
  {
    if p < t then
      AddChildValid(ns, p, t);
      AddChild(ns, p, t)
    else Err(Unsupported)
  }

  /** Only the nodes, the last parent and the map of possible parents differ. */
  ghost predicate LinkFrame(st: PState, r: PState)
  {
    r == st.(nodes := r.nodes, lastParent := r.lastParent, lastTermMap := r.lastTermMap)
  }

  /**
   * A first-column term: it becomes the last parent, is registered under the
   * elided sentinel and its record name, and only then is the term recorded
   * for its parent name looked up and given the term as a child. A name such
   * as Foo.Foo therefore finds the term itself; the table of terms holds no
   * cycle, so that case ends in Unsupported.
   */
  function FirstColumn(st: PState, t: nat): (r: Result<PState>)
    requires Inv(st) && t < |st.nodes|
    ensures st.nodes[t].parentTerm == st.nodes[t].recordTerm ==> r == Err(Unsupported)
    ensures var n := st.nodes[t];
      n.parentTerm !in st.lastTermMap && n.parentTerm != n.recordTerm && n.parentTerm != ELIDED_TERM ==> r == Err(ParserError)
    ensures r.Ok? ==> Inv(r.value) && LinkFrame(st, r.value) && SameCells(st.nodes, r.value.nodes) && NamesFixed(st.nodes, r.value.nodes, t)
    ensures r.Ok? ==> |r.value.nodes| == |st.nodes|
    ensures r.Ok? ==> r.value.nodes[t] == st.nodes[t].(parent := r.value.nodes[t].parent, children := r.value.nodes[t].children)
    ensures r.Ok? ==>
      && r.value.lastParent == st.nodes[t].recordTerm
      && r.value.lastTermMap == st.lastTermMap[ELIDED_TERM := t][st.nodes[t].recordTerm := t]
      && ParentAsWritten(st.lastTermMap, st.nodes[t], t).Some?
      && AddChild(st.nodes, ParentAsWritten(st.lastTermMap, st.nodes[t], t).value, t) == Ok(r.value.nodes)
  {
    var n := st.nodes[t];
    var m := st.lastTermMap[ELIDED_TERM := t][n.recordTerm := t];
    if n.parentTerm !in m then Err(ParserError)
    else
      var ns :- Attach(st.nodes, m[n.parentTerm], t);
      Ok(st.(nodes := ns, lastParent := n.recordTerm, lastTermMap := m))
  }

  /**
   * The first-column step with the lookup made before the registration, as
   * the older interpreter's link_terms does: the parent is always an earlier
   * term, and a missing one raises ParserError.
   */
  function FirstColumnIntended(st: PState, t: nat): (r: Result<PState>)
    requires Inv(st) && t < |st.nodes|
    ensures st.nodes[t].parentTerm !in st.lastTermMap ==> r == Err(ParserError)
    ensures r.Ok? ==> Inv(r.value) && LinkFrame(st, r.value) && SameCells(st.nodes, r.value.nodes) && NamesFixed(st.nodes, r.value.nodes, t)
    ensures r.Ok? ==> |r.value.nodes| == |st.nodes|
    ensures r.Ok? ==> r.value.nodes[t] == st.nodes[t].(parent := r.value.nodes[t].parent, children := r.value.nodes[t].children)
    ensures r.Ok? ==>
      && r.value.lastParent == st.nodes[t].recordTerm
      && r.value.lastTermMap == st.lastTermMap[ELIDED_TERM := t][st.nodes[t].recordTerm := t]
      && AddChild(st.nodes, st.lastTermMap[st.nodes[t].parentTerm], t) == Ok(r.value.nodes)
  {
    var n := st.nodes[t];
    if n.parentTerm !in st.lastTermMap then Err(ParserError)
    else
      var ns :- Attach(st.nodes, st.lastTermMap[n.parentTerm], t);
      Ok(st.(nodes := ns, lastParent := n.recordTerm, lastTermMap := st.lastTermMap[ELIDED_TERM := t][n.recordTerm := t]))
  }

  /** The parent that metatab/parser.py:445-450 looks up: the map is updated first, so a name such as Foo.Foo finds the term itself. */
  function ParentAsWritten(m: map<string, nat>, n: Node, t: nat): Option<nat>
  {
    var m1 := m[ELIDED_TERM := t][n.recordTerm := t];
    if n.parentTerm in m1 then Some(m1[n.parentTerm]) else None
  }

  /** The parent that FirstColumnIntended looks up, before registering the term. */
  function ParentLookedUp(m: map<string, nat>, n: Node): Option<nat>
  {
    if n.parentTerm in m then Some(m[n.parentTerm]) else None
  }

  /** An elided term or an argument child: attached to the last parent, the map untouched. */
  function Link(st: PState, t: nat): (r: Result<PState>)
    requires Inv(st) && t < |st.nodes|
    ensures r.Ok? ==> Inv(r.value) && LinkFrame(st, r.value) && SameCells(st.nodes, r.value.nodes) && NamesFixed(st.nodes, r.value.nodes, t)
    ensures r.Ok? ==> |r.value.nodes| == |st.nodes|
    ensures (HasElidedParent(st.nodes[t]) || IsArgChild(st.nodes[t])) && st.lastParent !in st.lastTermMap ==> r == Err(KeyError)
    ensures (HasElidedParent(st.nodes[t]) || IsArgChild(st.nodes[t])) && r.Ok? ==>
      && r.value.lastParent == st.lastParent && r.value.lastTermMap == st.lastTermMap
      && var p := st.lastTermMap[st.lastParent];
         && p < t && r.value.nodes[p].children == st.nodes[p].children + [t] && r.value.nodes[t].parent == Some(p)
    ensures r.Ok? ==> r.value.nodes[t] == st.nodes[t].(parentTerm := r.value.nodes[t].parentTerm, parent := r.value.nodes[t].parent,
                                                      children := r.value.nodes[t].children)
    ensures HasElidedParent(st.nodes[t]) && r.Ok? ==> r.value.nodes[t].parentTerm == st.lastParent
    ensures !HasElidedParent(st.nodes[t]) && r.Ok? ==> r.value.nodes[t].parentTerm == st.nodes[t].parentTerm
    ensures !HasElidedParent(st.nodes[t]) && !IsArgChild(st.nodes[t]) ==> r == FirstColumn(st, t)
  {
    var n := st.nodes[t];
    if HasElidedParent(n) || IsArgChild(n) then
      if st.lastParent !in st.lastTermMap then Err(KeyError)
      else
        var n1 := if HasElidedParent(n) then n.(parentTerm := st.lastParent) else n;
        SetNodeValid(st.nodes, t, n1);
        var ns :- Attach(st.nodes[t := n1], st.lastTermMap[st.lastParent], t);
        Ok(st.(nodes := ns))
    else FirstColumn(st, t)
  }

  /**
   * SectionTerm.add_term: a term already in the section is left alone;
   * otherwise a root-level term is appended and takes the section's
   * ownership, and any other raises GenerateError. A plain term has no
   * add_term at all.
   */
  function SectionTakes(ns: seq<Node>, sec: nat, t: nat): (r: Result<seq<Node>>)
    requires Valid(ns) && sec < |ns| && t < |ns| && ns[t].section.Some?
    ensures ns[sec].kind == Plain ==> r == Err(AttributeError)
    ensures ns[sec].kind != Plain && t in ns[sec].terms ==> r == Ok(ns)
    ensures ns[sec].kind != Plain && t !in ns[sec].terms && Lower(ns[t].parentTerm) != ROOT_TERM ==> r == Err(GenerateError)
    ensures r.Ok? ==> Valid(r.value) && SameCells(ns, r.value) && NamesFixed(ns, r.value, t) && |r.value| == |ns|
    ensures r.Ok? ==> r.value[sec].terms == if t in ns[sec].terms then ns[sec].terms else ns[sec].terms + [t]
    ensures r.Ok? ==> r.value[t] == ns[t].(terms := r.value[t].terms)
  {
    var s := ns[sec];
    if s.kind == Plain then Err(AttributeError)
    else if t in s.terms then Ok(ns)     // the closing assertion holds: the term has a section
    else if Lower(ns[t].parentTerm) != ROOT_TERM then Err(GenerateError)
    else
      AppendTermValid(ns, sec, t);
      var ns1 := ns[sec := s.(terms := s.terms + [t])];
      var ns2 :- WithOwnership(ns1, t);
      OwnedCells(ns1, ns2, t);
      SameCellsTrans(ns, ns1, ns2);
      NamesFixedTrans(ns, ns1, ns2, t);
      Ok(ns2)
  }

  /** Setting ownership changes references only. */
  lemma OwnedCells(ns: seq<Node>, r: seq<Node>, t: nat)
    requires OwnersOnly(ns, r)
    ensures SameCells(ns, r) && NamesFixed(ns, r, t)
  {
    forall i | 0 <= i < |ns| ensures Cells(r[i]) == Cells(ns[i]) && (r[i].parentTerm, r[i].recordTerm) == (ns[i].parentTerm, ns[i].recordTerm) {
      assert r[i] == ns[i].(parent := r[i].parent, section := r[i].section);
    }
  }

  /** The branch for value-bearing terms: declared property type and value name, validity, linking, the section. */
  function ValueStep(st: PState, t: nat): (r: Result<PState>)
    requires Inv(st) && t < |st.nodes| && st.nodes[t].section.Some?
    ensures r.Ok? ==> Inv(r.value) && SameCells(st.nodes, r.value.nodes) && NamesFixed(st.nodes, r.value.nodes, t)
    ensures r.Ok? ==> LinkFrame(st, r.value) && r.value.nodes[t].recordTerm == st.nodes[t].recordTerm && |r.value.nodes| == |st.nodes|
    ensures r.Ok? ==> r.value.nodes[t].valid == Some(Has(st.declTerms, JoinLc(st.nodes[t])))
    ensures r.Ok? ==> r.value.nodes[t].childPropertyType == DeclString(Get(st.declTerms, Terms.Join(st.nodes[t])), "childpropertytype", "any")
    ensures r.Ok? ==> r.value.nodes[t].termValueName == DeclString(Get(st.declTerms, Terms.Join(st.nodes[t])), "termvaluename", st.defaultName)
  {
    var n := st.nodes[t];
    var dj := Get(st.declTerms, Terms.Join(n));
    var n1 := n.(childPropertyType := DeclString(dj, "childpropertytype", "any"),
                 termValueName := DeclString(dj, "termvaluename", st.defaultName),
                 valid := Some(Has(st.declTerms, JoinLc(n))));
    SetNodeValid(st.nodes, t, n1);
    var st1 := st.(nodes := st.nodes[t := n1]);
    var st2 :- Link(st1, t);
    SameCellsTrans(st.nodes, st1.nodes, st2.nodes);
    NamesFixedTrans(st.nodes, st1.nodes, st2.nodes, t);
    if Lower(st2.nodes[t].parentTerm) == ROOT_TERM then
      var ns :- SectionTakes(st2.nodes, st2.lastSection, t);
      SameCellsTrans(st.nodes, st2.nodes, ns);
      NamesFixedTrans(st.nodes, st2.nodes, ns, t);
      Ok(st2.(nodes := ns))
    else Ok(st2)
  }

  /** A term of a declaration document feeds the declarations; any other is yielded. */
  function Emit(st: PState, t: nat): (r: Result<PState>)
    requires Inv(st) && t < |st.nodes|
    ensures st.nodes[t].fileType != Some("declare") ==> r == Ok(st.(out := st.out + [t]))
    ensures r.Ok? ==> Inv(r.value) && r.value.nodes == st.nodes
    ensures r.Ok? ==> r.value == st.(declTerms := r.value.declTerms, declSections := r.value.declSections, out := r.value.out)
    ensures r.Ok? ==> st.out <= r.value.out
  {
    if st.nodes[t].fileType == Some("declare") then
      var d :- ManageDeclare(st.nodes, t, st.declTerms, st.declSections);
      Ok(st.(declTerms := d.0, declSections := d.1))
    else Ok(st.(out := st.out + [t]))
  }

  /** The branches of the loop body in `__iter__`, after the renaming. */
  function Dispatch(st: PState, t: nat): (r: Result<PState>)
    requires Inv(st) && t < |st.nodes| && st.nodes[t].section.Some?
    ensures r.Ok? ==> Inv(r.value) && r.value.root == st.root && |r.value.nodes| == |st.nodes|
    ensures r.Ok? ==> SameCells(st.nodes, r.value.nodes) && NamesFixed(st.nodes, r.value.nodes, t)
    ensures r.Ok? ==> r.value.nodes[t].recordTerm == st.nodes[t].recordTerm && st.out <= r.value.out
  {
    match Classify(st.nodes[t])
    case Header => HeaderStep(st, t)
    case SectionStart => Emit(SectionStep(st, t), t)
    case RootStart => Emit(RootStep(st, t), t)
    case Valued =>
      var st2 :- ValueStep(st, t);
      Emit(st2, t)
  }

  /** One turn of the loop in `__iter__`, for the term `t` just yielded by the generator. */
  function Interpret(st: PState, t: nat): (r: Result<PState>)
    requires Inv(st) && t < |st.nodes|
    ensures r.Ok? ==> Inv(r.value) && r.value.root == st.root && |r.value.nodes| == |st.nodes|
    ensures r.Ok? ==> SameCells(st.nodes, r.value.nodes) && NamesFixed(st.nodes, r.value.nodes, t)
    ensures r.Ok? ==> Renamed(st, t).Ok? && r.value.nodes[t].recordTerm == Renamed(st, t).value.recordTerm
    ensures r.Ok? ==> st.out <= r.value.out
  {
    var n :- Renamed(st, t);
    SetNodeValid(st.nodes, t, n);
    var st1 := st.(nodes := st.nodes[t := n]);
    var r :- Dispatch(st1, t);
    SameCellsTrans(st.nodes, st1.nodes, r.nodes);
    NamesFixedTrans(st.nodes, st1.nodes, r.nodes, t);
    Ok(r)
  }

  // ---------------------------------------------------------------------
  // The generator (`generate_terms`)

  /**
   * Where rows come from: the rows of each document by reference, what each
   * declaration name resolves to from a given directory, and the document's
   * declared sections (used for the arguments of a Section row without any).
   */
  datatype Src = Src(rows: map<string, seq<Row>>, declares: map<(string, string), string>, sections: Dict<string, SectionDecl>)

  /** A row with no term: empty, a blank first cell, or a first cell that starts with '#'. */
  predicate RowSkipped(row: Row)
  {
    |row| == 0 || Strip(row[0]) == "" || StartsWith(Strip(row[0]), "#")
  }

  /** A term whose value starts with '#' is a comment. */
  predicate IsComment(n: Node)
  {
    Truthy(n.value) && StartsWith(n.value.value, "#")
  }

  /** The term object for a row, of the class registered for its normalised name. */
  function RowTerm(st: PState, src: Src, row: Row, lineN: nat, fileType: Option<string>): (r: Result<Node>)
    requires |row| > 0
    ensures r.Ok? ==> r.value.children == [] && r.value.terms == [] && r.value.parent.None? && r.value.section.None?
    ensures r.Ok? ==> r.value.row == Some(lineN) && r.value.fileType == fileType && NormalizeTerm(row[0]) == Ok(r.value.term)
  {
    var name :- NormalizeTerm(row[0]);    // the join_lc of Term(row[0], None)
    var value := if |row| > 1 then row[1] else "";
    var args := if |row| > 2 then row[2..] else [];
    match TermClass(st.declTerms, name)
    case Plain => NewTerm(st.nodes, name, Some(value), args, Some(lineN), Some(1), fileType, None, None)
    case Section => NewSection(st.nodes, Section, name, value, args, Some(lineN), fileType, src.sections)
    case RootSection => Err(TypeError)   // RootSectionTerm takes no name, value or arguments
  }

  /** The (index, value) pairs of the non-blank arguments from `from` on, in order. */
  function ChildSpecs(args: seq<string>, from: nat): (r: seq<(nat, string)>)
    requires from <= |args|
    ensures forall j :: 0 <= j < |r| ==> from <= r[j].0 < |args| && r[j].1 == args[r[j].0] && !IsBlank(args[r[j].0])
    ensures forall j, k :: 0 <= j < k < |r| ==> r[j].0 < r[k].0
    decreases |args| - from
  {
    if from == |args| then []
    else
      var rest := ChildSpecs(args, from + 1);
      if !IsBlank(args[from]) then [(from, args[from])] + rest else rest
  }

  /** Every non-blank argument has its pair. */
  lemma {:induction false} ChildSpecsComplete(args: seq<string>, from: nat, i: nat)
    requires from <= i < |args| && !IsBlank(args[i])
    ensures (i, args[i]) in ChildSpecs(args, from)
    decreases |args| - from
  {
    var rest := ChildSpecs(args, from + 1);
    if i > from {
      ChildSpecsComplete(args, from + 1, i);
      assert (i, args[i]) in rest;
    }
    if IsBlank(args[from]) {
      assert ChildSpecs(args, from) == rest;
    } else {
      assert ChildSpecs(args, from) == [(from, args[from])] + rest;
    }
  }

  /** An argument child `<record_lc>.<k>`: in its parent's row, at column k + 2, with the argument as its value. */
  function ChildTerm(st: PState, t: nat, k: nat, v: string, lineN: nat, fileType: Option<string>): (r: Result<Node>)
    requires t < |st.nodes|
    ensures r.Ok? ==> r.value.term == Lower(st.nodes[t].recordTerm) + "." + NatToString(k)
    ensures r.Ok? ==> r.value.row == Some(lineN) && r.value.col == Some(k + 2) && r.value.parent == Some(t)
    ensures r.Ok? ==> r.value.value == (if v != "" then Some(Strip(v)) else None)
    ensures r.Ok? ==> r.value.children == [] && r.value.terms == [] && r.value.section.None?
  {
    var name := Lower(st.nodes[t].recordTerm) + "." + NatToString(k);
    match TermClass(st.declTerms, name)
    case Plain => NewTerm(st.nodes, name, Some(v), [], Some(lineN), Some(k + 2), fileType, Some(t), None)
    case Section => Err(AssertionError)   // SectionTerm asserts it has a document and no parent
    case RootSection => Err(TypeError)
  }

  /** The argument child for `spec` of a term whose record name is `rec`. */
  ghost predicate IsKid(c: Node, rec: string, lineN: nat, spec: (nat, string))
  {
    && c.term == Lower(rec) + "." + NatToString(spec.0)
    && c.row == Some(lineN) && c.col == Some(spec.0 + 2)
    && c.value == (if spec.1 != "" then Some(Strip(spec.1)) else None)
  }

  /** The children of specs[j..], at the end of the table from `base` on. */
  ghost predicate KidsAt(ns: seq<Node>, base: nat, rec: string, lineN: nat, specs: seq<(nat, string)>, j: nat)
    requires j <= |specs| && base + (|specs| - j) <= |ns|
  {
    forall p :: base <= p < base + (|specs| - j) ==> IsKid(ns[p], rec, lineN, specs[j + (p - base)])
  }

  /** One more child in front of the ones already placed. */
  lemma KidsCons(a: seq<Node>, b: seq<Node>, r: seq<Node>, rec: string, lineN: nat, specs: seq<(nat, string)>, j: nat)
    requires j < |specs| && |b| == |a| + 1 && IsKid(b[|a|], rec, lineN, specs[j])
    requires |a| + 1 + (|specs| - (j + 1)) <= |r|
    requires SameCells(b, r)
    requires KidsAt(r, |a| + 1, rec, lineN, specs, j + 1)
    ensures KidsAt(r, |a|, rec, lineN, specs, j)
  {
    assert Cells(r[|a|]) == Cells(b[|a|]);
    forall p | |a| <= p < |a| + (|specs| - j) ensures IsKid(r[p], rec, lineN, specs[j + (p - |a|)]) {
      if p > |a| {
        assert j + (p - |a|) == j + 1 + (p - (|a| + 1));
      }
    }
  }

  /** One argument child: created, appended, yielded and interpreted. */
  function KidStep(st: PState, t: nat, spec: (nat, string), lineN: nat, fileType: Option<string>): (r: Result<PState>)
    requires Inv(st) && t < |st.nodes|
    ensures r.Ok? ==> Inv(r.value) && r.value.root == st.root && st.out <= r.value.out
    ensures r.Ok? ==> |r.value.nodes| == |st.nodes| + 1
    ensures r.Ok? ==> SameCells(st.nodes, r.value.nodes)
    ensures r.Ok? ==> r.value.nodes[t].recordTerm == st.nodes[t].recordTerm
    ensures r.Ok? ==> IsKid(r.value.nodes[|st.nodes|], st.nodes[t].recordTerm, lineN, spec)
  {
    var c :- ChildTerm(st, t, spec.0, spec.1, lineN, fileType);
    AppendNodeValid(st.nodes, c);
    var st1 := st.(nodes := st.nodes + [c]);
    var st2 :- Interpret(st1, |st.nodes|);
    SameCellsTrans(st.nodes, st1.nodes, st2.nodes);
    assert Cells(st2.nodes[|st.nodes|]) == Cells(st1.nodes[|st.nodes|]);
    Ok(st2)
  }

  /**
   * The argument children of `t`: one term per non-blank argument, each
   * created, yielded and interpreted before the next.
   */
  function ArgKids(st: PState, t: nat, rec: string, specs: seq<(nat, string)>, j: nat, lineN: nat, fileType: Option<string>): (r: Result<PState>)
    requires Inv(st) && t < |st.nodes| && j <= |specs| && st.nodes[t].recordTerm == rec
    ensures r.Ok? ==> Inv(r.value) && r.value.root == st.root && st.out <= r.value.out
    ensures r.Ok? ==> |r.value.nodes| == |st.nodes| + (|specs| - j) && SameCells(st.nodes, r.value.nodes)
    decreases |specs| - j
  {
    if j == |specs| then Ok(st)
    else
      var st2 :- KidStep(st, t, specs[j], lineN, fileType);
      var r :- ArgKids(st2, t, rec, specs, j + 1, lineN, fileType);
      assert SameCells(st.nodes, r.nodes) by {
        SameCellsTrans(st.nodes, st2.nodes, r.nodes);
      }
      Ok(r)
  }

  /** The children ArgKids adds are exactly the specs, in order, after every earlier term. */
  lemma {:induction false} ArgKidsShape(st: PState, t: nat, rec: string, specs: seq<(nat, string)>, j: nat, lineN: nat, fileType: Option<string>)
    requires Inv(st) && t < |st.nodes| && j <= |specs| && st.nodes[t].recordTerm == rec
    requires ArgKids(st, t, rec, specs, j, lineN, fileType).Ok?
    ensures KidsAt(ArgKids(st, t, rec, specs, j, lineN, fileType).value.nodes, |st.nodes|, rec, lineN, specs, j)
    decreases |specs| - j
  {
    if j < |specs| {
      var st2 := KidStep(st, t, specs[j], lineN, fileType).value;
      var j1: nat := j + 1;
      ArgKidsShape(st2, t, rec, specs, j1, lineN, fileType);
      var r := ArgKids(st2, t, rec, specs, j1, lineN, fileType).value;
      assert r == ArgKids(st, t, rec, specs, j, lineN, fileType).value;
      KidsCons(st.nodes, st2.nodes, r.nodes, rec, lineN, specs, j);
    }
  }

  /** find_include_doc: a name starting with http is a URL; any other is joined to the including document's directory. */
  function FindIncludeDoc(d: string, name: string): (r: Result<string>)
    ensures r.Err? <==> d == "" && !StartsWith(StripChar(name, '/'), "http")
    ensures r.Err? ==> r.error == IncludeError
    ensures StartsWith(StripChar(name, '/'), "http") ==> r == Ok(StripChar(name, '/'))
    ensures r.Ok? ==> EndsWith(r.value, StripChar(name, '/'))
  {
    var inc := StripChar(name, '/');
    if StartsWith(inc, "http") then Ok(inc)
    else if d == "" then Err(IncludeError)
    else
      var p := PathJoin(d, inc);
      assert EndsWith(p, inc) by {
        if StartsWith(inc, "/") {
        } else if d == "" || EndsWith(d, "/") {
          assert (d + inc)[|d + inc| - |inc|..] == inc;
        } else {
          assert (d + "/" + inc)[|d + "/" + inc| - |inc|..] == inc;
        }
      }
      Ok(p)
  }

  /** The document an Include or Declare term names (find_declare_doc's probing is given as a table). */
  function Resolve(src: Src, ref: string, n: Node): (r: Result<string>)
  {
    if n.value.None? then Err(AttributeError)
    else
      var name := Strip(n.value.value);
      if JoinLc(n) == ROOT_INCLUDE then FindIncludeDoc(Dirname(ref), name)
      else if (Dirname(ref), name) in src.declares then Ok(src.declares[(Dirname(ref), name)])
      else Err(IncludeError)
  }

  /**
   * An Include or Declare term: a document including itself is an error;
   * otherwise the term is yielded and the named document's terms follow.
   */
  function IncludeStep(fuel: nat, src: Src, ref: string, t: nat, gl: nat, st: PState): (r: Result<PState>)
    requires Inv(st) && t < |st.nodes| && gl < |st.nodes|
    ensures Resolve(src, ref, st.nodes[t]) == Ok(ref) ==> r == Err(IncludeError)
    ensures r.Ok? ==> Inv(r.value) && r.value.root == st.root && |st.nodes| <= |r.value.nodes| && st.out <= r.value.out
    decreases fuel, 1
  {
    var resolved :- Resolve(src, ref, st.nodes[t]);
    if ref == resolved then Err(IncludeError)
    else
      var st2 :- Interpret(st, t);
      IncludeRows(fuel, src, resolved, Lower(st2.nodes[t].recordTerm), gl, st2)
  }

  /**
   * The included document `inc`: its terms, with the include term's record
   * name as their file type, and last the generator's current section again.
   */
  function IncludeRows(fuel: nat, src: Src, inc: string, fileType: string, gl: nat, st: PState): (r: Result<PState>)
    requires Inv(st) && gl < |st.nodes|
    ensures r.Ok? ==> Inv(r.value) && r.value.root == st.root && |st.nodes| <= |r.value.nodes| && st.out <= r.value.out
    decreases fuel, 0
  {
    if fuel == 0 then Err(RecursionLimit)
    else if inc !in src.rows then Err(IncludeError)   // the row generator's OSError, wrapped
    else
      var st3 :- GenRows(fuel - 1, src, inc, Some(fileType), src.rows[inc], 0, st.root, st);
      Interpret(st3, gl)
  }

  /** A term row that is not an include: the term, then (unless it is a Section or Header) its argument children. */
  function TermRow(st: PState, t: nat, gl: nat, lineN: nat, fileType: Option<string>): (r: Result<(nat, PState)>)
    requires Inv(st) && t < |st.nodes| && gl < |st.nodes|
    ensures r.Ok? ==> Inv(r.value.1) && r.value.1.root == st.root && r.value.0 < |r.value.1.nodes| && |st.nodes| <= |r.value.1.nodes|
    ensures r.Ok? ==> st.out <= r.value.1.out
    ensures r.Ok? ==> r.value.0 == (if JoinLc(st.nodes[t]) == ROOT_SECTION then t else gl)
  {
    var gl2 := if JoinLc(st.nodes[t]) == ROOT_SECTION then t else gl;
    var st2 :- Interpret(st, t);
    var n2 := st2.nodes[t];
    if JoinLc(n2) == ROOT_SECTION || JoinLc(n2) == ROOT_HEADER then Ok((gl2, st2))
    else
      var st3 :- ArgKids(st2, t, n2.recordTerm, ChildSpecs(n2.args, 0), 0, lineN, fileType);
      Ok((gl2, st3))
  }

  /** One row of generate_terms, with the interpreter's step for each term it yields; also the generator's new last section. */
  function RowStep(fuel: nat, src: Src, ref: string, fileType: Option<string>, row: Row, lineN: nat, gl: nat, st: PState): (r: Result<(nat, PState)>)
    requires Inv(st) && gl < |st.nodes|
    ensures RowSkipped(row) ==> r == Ok((gl, st))
    ensures !RowSkipped(row) && RowTerm(st, src, row, lineN, fileType).Ok? && IsComment(RowTerm(st, src, row, lineN, fileType).value) ==>
      r == Ok((gl, st))
    ensures r.Ok? ==> Inv(r.value.1) && r.value.1.root == st.root && r.value.0 < |r.value.1.nodes| && |st.nodes| <= |r.value.1.nodes|
    ensures r.Ok? ==> st.out <= r.value.1.out
    decreases fuel, 2
  {
    if RowSkipped(row) then Ok((gl, st))
    else
      var n :- RowTerm(st, src, row, lineN, fileType);
      if IsComment(n) then Ok((gl, st))
      else
        AppendNodeValid(st.nodes, n);
        var st1 := st.(nodes := st.nodes + [n]);
        if JoinLc(n) == ROOT_INCLUDE || JoinLc(n) == ROOT_DECLARE then
          var st2 :- IncludeStep(fuel, src, ref, |st.nodes|, gl, st1);
          Ok((gl, st2))
        else
          TermRow(st1, |st.nodes|, gl, lineN, fileType)
  }

  /** The rows of one document from row `i` on; row numbers start at 1. */
  function GenRows(fuel: nat, src: Src, ref: string, fileType: Option<string>, rows: seq<Row>, i: nat, gl: nat, st: PState): (r: Result<PState>)
    requires Inv(st) && gl < |st.nodes| && i <= |rows|
    ensures r.Ok? ==> Inv(r.value) && r.value.root == st.root && |st.nodes| <= |r.value.nodes| && st.out <= r.value.out
    decreases fuel, 3, |rows| - i
  {
    if i == |rows| then Ok(st)
    else
      var p :- RowStep(fuel, src, ref, fileType, rows[i], i + 1, gl, st);
      GenRows(fuel, src, ref, fileType, rows, i + 1, p.0, p.1)
  }

  /** The state __iter__ starts from: the root, registered under the elided sentinel and its record name, already yielded; the parser's parameter map and declarations as they stand. */
  function Start(rn: Node, pm: seq<Param>, dt: Dict<string, TermDecl>, ds: Dict<string, SectionDecl>): PState
  {
    PState([rn], 0, ROOT_TERM, map[ELIDED_TERM := 0, rn.recordTerm := 0], "@value", 0, pm, dt, ds, [0])
  }

  lemma StartInv(rn: Node, pm: seq<Param>, dt: Dict<string, TermDecl>, ds: Dict<string, SectionDecl>)
    requires rn.children == [] && rn.terms == [] && rn.parent.None? && rn.section.None? && Distinct(ds)
    ensures Inv(Start(rn, pm, dt, ds))
  {
  }

  /** The three sections install_declare_terms declares have distinct names. */
  lemma InstalledDistinct()
    ensures Distinct(InstallDeclareTerms().1)
  {
    var ds := InstallDeclareTerms().1;
    assert ds[0].0 != ds[1].0 && ds[0].0 != ds[2].0 && ds[1].0 != ds[2].0 by {
      assert ds[0].0[0] != ds[1].0[0] && ds[0].0[0] != ds[2].0[0];
      assert ds[1].0[8] != ds[2].0[8];
    }
  }

  /** __iter__ over the document `ref`, for a parser whose parameter map and declarations are `pm`, `dt` and `ds`: the root first, then every term of the document and of those it includes. */
  function ParseFrom(fuel: nat, src: Src, ref: string, pm: seq<Param>, dt: Dict<string, TermDecl>, ds: Dict<string, SectionDecl>): (r: Result<PState>)
    requires Distinct(ds)
    ensures r.Ok? ==> Inv(r.value) && |r.value.out| >= 1 && r.value.out[0] == r.value.root == 0
  {
    var rn :- NewRoot([], None, src.sections);
    var st0 := Start(rn, pm, dt, ds);
    StartInv(rn, pm, dt, ds);
    if ref !in src.rows then Err(IncludeError)
    else
      var r :- GenRows(fuel, src, ref, None, src.rows[ref], 0, 0, st0);
      assert r.out[0] == st0.out[0];
      Ok(r)
  }

  /** A freshly made TermParser iterated over `ref`. */
  function Parse(fuel: nat, src: Src, ref: string): (r: Result<PState>)
    ensures r.Ok? ==> Inv(r.value) && |r.value.out| >= 1 && r.value.out[0] == r.value.root == 0
  {
    InstalledDistinct();
    var decls := InstallDeclareTerms();
    ParseFrom(fuel, src, ref, [], decls.0, decls.1)
  }
}
