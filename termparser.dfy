// The TermParser object of metatab/parser.py as an object: its parameter
// map and its declared terms and sections are fields that its methods
// update in place, as the Python methods do. Each method is proved against
// the function of the Parser module that specifies it; the interpreter
// functions use those functions, since a function cannot call a method.
module TermParserClass {
  import opened Wrappers
  import opened Text
  import opened ODict
  import opened Terms
  import opened Parser

  class TermParser {
    var ref: string
    var paramMap: seq<Param>                        // _param_map
    var declaredTerms: Dict<string, TermDecl>       // _declared_terms
    var declaredSections: Dict<string, SectionDecl> // _declared_sections

    /** The declared sections are a dict: no section name appears twice. */
    ghost predicate Ready()
      reads this
    {
      Distinct(declaredSections)
    }

    /** __init__: an empty parameter map and the declarations of install_declare_terms. */
    constructor (ref: string)
      ensures this.ref == ref && paramMap == []
      ensures (declaredTerms, declaredSections) == InstallDeclareTerms()
      ensures Ready()
    {
      this.ref := ref;
      paramMap := [];
      declaredTerms := InstallDeclareTerms().0;
      declaredSections := InstallDeclareTerms().1;
      InstalledDistinct();
    }

    /** add_declared_section: the section stored under its lower-cased value; a term without a value raises. */
    method AddDeclaredSection(ns: seq<Node>, t: nat) returns (r: Result<()>)
      requires Ready() && t < |ns|
      modifies this
      ensures Ready()
      ensures DeclaredSection(ns, t, old(declaredSections)) == if r.Ok? then Ok(declaredSections) else Err(r.error)
      ensures r.Err? ==> declaredSections == old(declaredSections)
      ensures ref == old(ref) && paramMap == old(paramMap) && declaredTerms == old(declaredTerms)
    {
      var n := ns[t];
      if n.value.None? {
        return Err(AttributeError);
      }
      declaredSections := Put(declaredSections, Lower(n.value.value), SectionDecl(NonBlank(n.args), []));
      r := Ok(());
    }

    /** add_term_to_section, the closure inside add_declared_term. */
    method AddTermToSection(td: TermDecl) returns (r: Result<()>)
      requires Ready()
      modifies this
      ensures Ready()
      ensures AddToSection(old(declaredSections), td) == if r.Ok? then Ok(declaredSections) else Err(r.error)
      ensures r.Err? ==> declaredSections == old(declaredSections)
      ensures ref == old(ref) && paramMap == old(paramMap) && declaredTerms == old(declaredTerms)
    {
      var key := Lower(Prop(td, "section").GetOr(""));
      var sd := Get(declaredSections, key);
      if sd.None? {
        return Err(DeclarationError);
      }
      if Prop(td, "section").None? {
        return Err(KeyError);
      }
      var term := Prop(td, "term");
      if term.None? {
        return Err(KeyError);
      }
      if term.value !in sd.value.terms {
        declaredSections := Put(declaredSections, key, sd.value.(terms := sd.value.terms + [term.value]));
      }
      r := Ok(());
    }

    /**
     * The loop of add_declared_term over inherited_children: every term of
     * the section that is a child of the inherited term is declared again as
     * a child of `td`. The section's term list is read afresh at every step.
     */
    method InheritChildren(td: TermDecl) returns (r: Result<()>)
      requires Ready()
      modifies this
      ensures Ready()
      ensures Inherit(old(declaredTerms), old(declaredSections), td) == if r.Ok? then Ok((declaredTerms, declaredSections)) else Err(r.error)
      ensures ref == old(ref) && paramMap == old(paramMap)
    {
      var plan := InheritPlan(declaredSections, td);
      if plan.Err? {
        return Err(plan.error);
      }
      if plan.value.None? {
        return Ok(());
      }
      var p := plan.value.value;
      var res := InheritLoop(p.0, p.1, p.2, p.3, declaredTerms, declaredSections);
      if res.Err? {
        return Err(res.error);
      }
      declaredTerms, declaredSections := res.value.0, res.value.1;
      r := Ok(());
    }

    /** add_declared_term: the declaration stored under its normalised name, added to its section, then its inherited children. */
    method AddDeclaredTerm(ns: seq<Node>, t: nat) returns (r: Result<()>)
      requires Ready() && Valid(ns) && t < |ns|
      modifies this
      ensures Ready()
      ensures DeclareTerm(ns, t, old(declaredTerms), old(declaredSections)) == if r.Ok? then Ok((declaredTerms, declaredSections)) else Err(r.error)
      ensures ref == old(ref) && paramMap == old(paramMap)
    {
      var n := ns[t];
      if n.value.None? {
        return Err(TypeError);
      }
      var name := NormalizeTerm(n.value.value);
      if name.Err? {
        return Err(name.error);
      }
      var ap := ArgProps(ns, t);
      if ap.Err? {
        return Err(ap.error);
      }
      var props := NonBlankProps(ap.value);
      if props.Err? {
        return Err(props.error);
      }
      var td := TermDecl(Put(Remove(props.value, "values"), "term", n.value.value), Some([]));
      declaredTerms := Put(declaredTerms, name.value, td);
      if Truthy(Prop(td, "section")) {
        r := AddTermToSection(td);
        if r.Err? {
          return;
        }
      }
      r := InheritChildren(td);
    }

    /** add_value_set_value: every declared term whose value set is the term's parent gets the value, in dict order. */
    method AddValueSetValue(ns: seq<Node>, t: nat) returns (r: Result<()>)
      requires Valid(ns) && t < |ns|
      modifies this
      ensures Parser.AddValueSetValue(ns, t, old(declaredTerms)) == if r.Ok? then Ok(declaredTerms) else Err(r.error)
      ensures ref == old(ref) && paramMap == old(paramMap) && declaredSections == old(declaredSections)
    {
      var n := ns[t];
      if n.parent.None? {
        return Err(AttributeError);
      }
      var vs := JoinLc(ns[n.parent.value]);
      var ap := ArgProps(ns, t);
      if ap.Err? {
        return Err(ap.error);
      }
      var disp := match Get(ap.value, "displayvalue") case Some(v) => v case None => None;
      var dt := declaredTerms;
      for i := 0 to |dt|
        invariant |dt| == |declaredTerms|
        invariant forall k :: 0 <= k < i ==> dt[k].0 == declaredTerms[k].0 && AddValueOne(declaredTerms[k].1, vs, n.value, disp) == Ok(dt[k].1)
        invariant forall k :: i <= k < |dt| ==> dt[k] == declaredTerms[k]
      {
        var e := AddValueOne(dt[i].1, vs, n.value, disp);
        if e.Err? {
          AddValueFails(declaredTerms, vs, n.value, disp, i);
          return Err(KeyError);
        }
        dt := dt[i := (dt[i].0, e.value)];
      }
      AddValueAll(declaredTerms, dt, vs, n.value, disp);
      declaredTerms := dt;
      r := Ok(());
    }

    /** manage_declare_terms: a term of a declaration document goes to the matching add_declared_* method. */
    method ManageDeclareTerms(ns: seq<Node>, t: nat) returns (r: Result<()>)
      requires Ready() && Valid(ns) && t < |ns|
      modifies this
      ensures Ready()
      ensures ManageDeclare(ns, t, old(declaredTerms), old(declaredSections)) == if r.Ok? then Ok((declaredTerms, declaredSections)) else Err(r.error)
      ensures ref == old(ref) && paramMap == old(paramMap)
    {
      var j := JoinLc(ns[t]);
      if j == ROOT_DECLARESECTION {
        r := AddDeclaredSection(ns, t);
      } else if j == ROOT_DECLARETERM {
        r := AddDeclaredTerm(ns, t);
      } else if IsValueTerm(ns[t]) {
        r := AddValueSetValue(ns, t);
      } else {
        r := Ok(());
      }
    }

    /**
     * __iter__ over the parser's document: the rows of the document, each
     * turned into terms and interpreted as it is yielded. The parser keeps
     * the parameter map and the declarations the iteration leaves.
     */
    method Iterate(fuel: nat, src: Src) returns (r: Result<PState>)
      requires Ready()
      modifies this
      ensures r == ParseFrom(fuel, src, old(ref), old(paramMap), old(declaredTerms), old(declaredSections))
      ensures Ready() && ref == old(ref)
      ensures r.Ok? ==> paramMap == r.value.paramMap && declaredTerms == r.value.declTerms && declaredSections == r.value.declSections
    {
      r := RunParse(fuel, src, ref, paramMap, declaredTerms, declaredSections);
      if r.Ok? {
        Keep(r.value);
      }
    }

    /** The parameter map and declarations an iteration leaves stay with the parser. */
    method Keep(st: PState)
      requires Distinct(st.declSections)
      modifies this
      ensures Ready() && ref == old(ref)
      ensures paramMap == st.paramMap && declaredTerms == st.declTerms && declaredSections == st.declSections
    {
      paramMap, declaredTerms, declaredSections := st.paramMap, st.declTerms, st.declSections;
    }
  }

  /** AddValue fails as soon as one declared term fails. */
  lemma AddValueFails(dt: Dict<string, TermDecl>, vs: string, value: Option<string>, disp: Option<string>, i: nat)
    requires i < |dt| && AddValueOne(dt[i].1, vs, value, disp).Err?
    ensures AddValue(dt, vs, value, disp) == Err(KeyError)
  {
  }

  /** When every declared term takes the value, AddValue's result is the declarations so updated. */
  lemma AddValueAll(dt: Dict<string, TermDecl>, r: Dict<string, TermDecl>, vs: string, value: Option<string>, disp: Option<string>)
    requires |r| == |dt|
    requires forall k :: 0 <= k < |dt| ==> r[k].0 == dt[k].0 && AddValueOne(dt[k].1, vs, value, disp) == Ok(r[k].1)
    ensures AddValue(dt, vs, value, disp) == Ok(r)
  {
    var all := AddValue(dt, vs, value, disp);
    forall k | 0 <= k < |dt| ensures all.value[k] == r[k] {
      assert Keys(all.value)[k] == Keys(dt)[k];
      assert AddValueOne(dt[k].1, vs, value, disp) == Ok(all.value[k].1);
    }
    assert all.value == r;
  }

  /** The loop of generate_terms over the rows of one document, each row's terms interpreted as they are yielded. */
  method GenerateRows(fuel: nat, src: Src, ref: string, fileType: Option<string>, rows: seq<Row>, st0: PState) returns (r: Result<PState>)
    requires Inv(st0) && 0 < |st0.nodes|
    ensures r == GenRows(fuel, src, ref, fileType, rows, 0, 0, st0)
  {
    var gl: nat := 0;
    var st := st0;
    var i := 0;
    while i < |rows|
      invariant i <= |rows| && Inv(st) && gl < |st.nodes|
      invariant GenRows(fuel, src, ref, fileType, rows, 0, 0, st0) == GenRows(fuel, src, ref, fileType, rows, i, gl, st)
    {
      var p := RowStep(fuel, src, ref, fileType, rows[i], i + 1, gl, st);
      if p.Err? {
        return Err(p.error);
      }
      gl, st := p.value.0, p.value.1;
      i := i + 1;
    }
    r := Ok(st);
  }

  /**
   * The loop of add_declared_term over inherited_children, from the first
   * term of the section on; `fuel` bounds the walk as InheritFrom's does.
   */
  method InheritLoop(fuel0: nat, tr: string, ihr: string, secKey: string,
                     dt0: Dict<string, TermDecl>, ds0: Dict<string, SectionDecl>) returns (r: Result<(Dict<string, TermDecl>, Dict<string, SectionDecl>)>)
    requires Distinct(ds0)
    ensures r == InheritFrom(fuel0, tr, ihr, secKey, 0, dt0, ds0)
  {
    var fuel := fuel0;
    var i: nat := 0;
    var dt, ds := dt0, ds0;
    ghost var spec := InheritFrom(fuel0, tr, ihr, secKey, 0, dt0, ds0);
    while fuel > 0 && Get(ds, secKey).Some? && i < |Get(ds, secKey).value.terms|
      invariant Distinct(ds)
      invariant spec == InheritFrom(fuel, tr, ihr, secKey, i, dt, ds)
      decreases fuel
    {
      var step := InheritChild(tr, ihr, Get(ds, secKey).value.terms[i], dt, ds);
      if step.Err? {
        return Err(step.error);
      }
      ghost var fuelWas, iWas, dtWas, dsWas := fuel, i, dt, ds;
      dt, ds := step.value.0, step.value.1;
      i := i + 1;
      fuel := fuel - 1;
      InheritFromStep(fuelWas, tr, ihr, secKey, iWas, dtWas, dsWas, fuel, i, dt, ds);
    }
    if Get(ds, secKey).None? {
      r := Err(KeyError);
    } else if i >= |Get(ds, secKey).value.terms| {
      r := Ok((dt, ds));
    } else {
      r := Err(Unsupported);
    }
  }

  /** One turn of InheritFrom: the section's term `i` taken, the walk goes on from the next with the declarations it leaves. */
  lemma InheritFromStep(fuel: nat, tr: string, ihr: string, secKey: string, i: nat,
                        dt: Dict<string, TermDecl>, ds: Dict<string, SectionDecl>,
                        fuel1: nat, i1: nat, dt1: Dict<string, TermDecl>, ds1: Dict<string, SectionDecl>)
    requires Distinct(ds) && Distinct(ds1) && Get(ds, secKey).Some? && i < |Get(ds, secKey).value.terms|
    requires fuel == fuel1 + 1 && i1 == i + 1
    requires InheritChild(tr, ihr, Get(ds, secKey).value.terms[i], dt, ds) == Ok((dt1, ds1))
    ensures InheritFrom(fuel, tr, ihr, secKey, i, dt, ds) == InheritFrom(fuel1, tr, ihr, secKey, i1, dt1, ds1)
  {
  }

  /** __iter__ for a parser with parameter map `pm` and declarations `dt` and `ds`. */
  method RunParse(fuel: nat, src: Src, ref: string, pm: seq<Param>, dt: Dict<string, TermDecl>, ds: Dict<string, SectionDecl>) returns (r: Result<PState>)
    requires Distinct(ds)
    ensures r == ParseFrom(fuel, src, ref, pm, dt, ds)
    ensures r.Ok? ==> Distinct(r.value.declSections)
  {
    var rn := NewRoot([], None, src.sections);
    if rn.Err? {
      return Err(rn.error);
    }
    var st := Start(rn.value, pm, dt, ds);
    StartInv(rn.value, pm, dt, ds);
    if ref !in src.rows {
      return Err(IncludeError);
    }
    r := GenerateRows(fuel, src, ref, None, src.rows[ref], st);
  }


}
