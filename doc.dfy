// MetatabDoc (metatab/doc.py): the document's root-level term list, its
// section registry (an OrderedDict keyed by lower-cased section name), the
// declarations, and the searches over them. Term objects live in a
// TermTable that the document shares with the terms.
module Doc {
  import opened Wrappers
  import opened Text
  import opened ODict
  import opened Terms
  import opened TermObjects
  import opened Scans

  // ---------------------------------------------------------------------
  // find

  /** The pattern find matches with: lower-cased, an unqualified name meaning root.<name>. */
  function FindPattern(term: string): (r: string)
    ensures '.' in r
    ensures IsLower(r)
  {
    var t := Lower(term);
    LowerIdempotent(term);
    if '.' !in t then
      assert ("root." + t)[4] == '.';
      assert forall i :: 0 <= i < 5 ==> !IsUpperChar("root."[i]);
      "root." + t
    else t
  }

  /**
   * The `startswith('Root.')` test in find runs on the lower-cased pattern,
   * so it never holds and find always searches all_terms.
   */
  lemma FindRootBranchDead(term: string)
    ensures !StartsWith(FindPattern(term), "Root.")
  {
    var t := Lower(term);
    if '.' !in t {
      assert ("root." + t)[0] == 'r';
    } else {
      LowerNoUpperStart(term, "Root.");
    }
  }

  /** An unqualified name is looked up as root.<name>. */
  lemma FindUnqualified(term: string)
    requires '.' !in term
    ensures FindPattern(term) == FindPattern("root." + term)
  {
    LowerConcat("root.", term);
    assert Lower("root.") == "root.";
    assert '.' !in Lower(term) by {
      forall i | 0 <= i < |term| ensures Lower(term)[i] != '.' { assert term[i] != '.'; }
    }
    assert ("root." + Lower(term))[4] == '.';
  }

  ghost predicate InRange(ns: seq<Node>, ts: seq<nat>)
  {
    forall k :: 0 <= k < |ts| ==> ts[k] < |ns|
  }

  ghost predicate InTable(ns: seq<Node>, sections: Dict<string, nat>)
  {
    forall k :: 0 <= k < |sections| ==> sections[k].1 < |ns|
  }

  /** Each of `ts`, followed by its descendents (Term.descendents). */
  function WithDescendents(ns: seq<Node>, ts: seq<nat>): (r: seq<nat>)
    requires Valid(ns) && InRange(ns, ts)
    ensures InRange(ns, r)
  {
    if ts == [] then [] else [ts[0]] + Descendents(ns, ts[0]) + WithDescendents(ns, ts[1..])
  }

  /** MetatabDoc.all_terms: every section except the one named Root, each followed by
      its section terms, and each section term by all of its descendents. */
  function AllTerms(ns: seq<Node>, sections: Dict<string, nat>): (r: seq<nat>)
    requires Valid(ns) && InTable(ns, sections)
    ensures InRange(ns, r)
  {
    if sections == [] then []
    else
      var s := sections[0].1;
      assert forall k :: 0 <= k < |ns[s].terms| ==> ns[s].terms[k] < |ns|;
      (if ns[s].value != Some("Root") then [s] else []) + WithDescendents(ns, ns[s].terms) + AllTerms(ns, sections[1..])
  }

  /** A child of a term is among the term's descendents, and so are its own descendents. */
  lemma {:induction false} ChildInDescendentsOf(ns: seq<Node>, pid: nat, cs: seq<nat>, c: nat)
    requires Valid(ns) && pid < |ns| && forall k :: 0 <= k < |cs| ==> pid < cs[k] < |ns|
    requires c in cs
    ensures c in DescendentsOf(ns, pid, cs)
    ensures forall d :: d in Descendents(ns, c) ==> d in DescendentsOf(ns, pid, cs)
    decreases |cs|
  {
    assert DescendentsOf(ns, pid, cs) == [cs[0]] + Descendents(ns, cs[0]) + DescendentsOf(ns, pid, cs[1..]);
    if cs[0] != c {
      ChildInDescendentsOf(ns, pid, cs[1..], c);
    }
  }

  /** Every term of `ts`, and every child of one, is in the stream WithDescendents builds. */
  lemma {:induction false} ChildInWithDescendents(ns: seq<Node>, ts: seq<nat>, t: nat, c: nat)
    requires Valid(ns) && InRange(ns, ts) && t in ts
    ensures t in WithDescendents(ns, ts)
    ensures t < |ns| && c in ns[t].children ==> c in WithDescendents(ns, ts)
  {
    var w := WithDescendents(ns, ts);
    assert w == [ts[0]] + Descendents(ns, ts[0]) + WithDescendents(ns, ts[1..]);
    if ts[0] == t {
      if c in ns[t].children {
        assert ns[t].children == ns[ts[0]].children;
        assert forall k :: 0 <= k < |ns[t].children| ==> t < ns[t].children[k] < |ns|;
        ChildInDescendentsOf(ns, t, ns[t].children, c);
        assert Descendents(ns, t) == DescendentsOf(ns, t, ns[t].children);
      }
    } else {
      ChildInWithDescendents(ns, ts[1..], t, c);
    }
  }

  /** all_terms yields every term of every listed section, and every child of one. */
  lemma {:induction false} ChildInAllTerms(ns: seq<Node>, sections: Dict<string, nat>, i: nat, t: nat, c: nat)
    requires Valid(ns) && InTable(ns, sections) && i < |sections|
    requires t in ns[sections[i].1].terms
    ensures t in AllTerms(ns, sections)
    ensures t < |ns| && c in ns[t].children ==> c in AllTerms(ns, sections)
  {
    var s := sections[0].1;
    assert InRange(ns, ns[s].terms);
    var head := (if ns[s].value != Some("Root") then [s] else []);
    assert AllTerms(ns, sections) == head + WithDescendents(ns, ns[s].terms) + AllTerms(ns, sections[1..]);
    if i == 0 {
      ChildInWithDescendents(ns, ns[s].terms, t, c);
    } else {
      assert sections[1..][i - 1] == sections[i];
      ChildInAllTerms(ns, sections[1..], i - 1, t, c);
    }
  }

  /** find's `section` argument: None, one section name, or a list or tuple of such arguments. */
  datatype SectionSel = AnySection | Named(name: string) | OneOf(alts: seq<SectionSel>)

  /** A section with the name `name` answers the selector: what in_section decides. */
  ghost predicate Selects(name: string, sel: SectionSel)
    decreases sel
  {
    match sel
    case AnySection => true
    case Named(s) => Lower(s) == Lower(name)
    case OneOf(alts) => exists k :: 0 <= k < |alts| && Selects(name, alts[k])
  }

  /**
   * in_section: any term is in no section at all, a term without a section
   * is in no named one, a list asks each of its items in turn until one
   * answers yes, and comparing with a section that has no name raises
   * AttributeError.
   */
  function InSection(ns: seq<Node>, t: nat, section: SectionSel): (r: Result<bool>)
    requires Valid(ns) && t < |ns|
    ensures section.AnySection? ==> r == Ok(true)
    ensures ns[t].section.None? ==> r == Ok(section.AnySection?)
    ensures ns[t].section.Some? && ns[ns[t].section.value].value.Some? ==>
      r == Ok(Selects(ns[ns[t].section.value].value.value, section))
    ensures ns[t].section.Some? && ns[ns[t].section.value].value.None? && section.Named? ==> r == Err(AttributeError)
    decreases section, 1
  {
    if section.AnySection? then Ok(true)
    else if ns[t].section.None? then Ok(false)
    else
      var name := ns[ns[t].section.value].value;
      match section
      case Named(s) => if name.None? then Err(AttributeError) else Ok(Lower(s) == Lower(name.value))
      case OneOf(alts) => InSectionAny(ns, t, alts)
  }

  /** any(in_section(t, e) for e in alts), for a term that has a section. */
  function InSectionAny(ns: seq<Node>, t: nat, alts: seq<SectionSel>): (r: Result<bool>)
    requires Valid(ns) && t < |ns| && ns[t].section.Some?
    ensures ns[ns[t].section.value].value.Some? ==>
      r == Ok(Selects(ns[ns[t].section.value].value.value, OneOf(alts)))
    decreases alts, 0
  {
    if alts == [] then Ok(false)
    else
      var b :- InSection(ns, t, alts[0]);
      if b then Ok(true)
      else
        var r := InSectionAny(ns, t, alts[1..]);
        var name := ns[ns[t].section.value].value;
        if name.Some? then SelectsTail(name.value, alts); r else r
  }

  /** A list selects a name when its first item does or the rest of the list does. */
  lemma SelectsTail(name: string, alts: seq<SectionSel>)
    requires alts != []
    ensures Selects(name, OneOf(alts)) <==> Selects(name, alts[0]) || Selects(name, OneOf(alts[1..]))
  {
    if Selects(name, OneOf(alts)) {
      var k :| 0 <= k < |alts| && Selects(name, alts[k]);
      if k > 0 {
        assert alts[1..][k - 1] == alts[k];
      }
    }
    if Selects(name, OneOf(alts[1..])) {
      var k :| 0 <= k < |alts[1..]| && Selects(name, alts[1..][k]);
      assert alts[k + 1] == alts[1..][k];
    }
  }

  /** The three tests of find, on a term other than root.root. */
  predicate Found(ns: seq<Node>, t: nat, pat: string, value: Option<Option<string>>, section: SectionSel)
    requires Valid(ns) && t < |ns|
  {
    && JoinLc(ns[t]) != ROOT_ROOT
    && Is(ns[t], pat)
    && InSection(ns, t, section) == Ok(true)
    && (value.None? || value.value == ns[t].value)
  }

  /**
   * One pass of find's loop: root.root is skipped, a term without a section
   * (other than root.section) fails the assertion, and the three tests are
   * evaluated left to right.
   */
  function FindStep(ns: seq<Node>, t: nat, pat: string, value: Option<Option<string>>, section: SectionSel): (r: Result<bool>)
    requires Valid(ns) && t < |ns|
    ensures r.Ok? ==> (r.value <==> Found(ns, t, pat, value, section))
    ensures JoinLc(ns[t]) == ROOT_ROOT ==> r == Ok(false)
    ensures JoinLc(ns[t]) != ROOT_ROOT && JoinLc(ns[t]) != ROOT_SECTION && ns[t].section.None? ==> r == Err(AssertionError)
  {
    var n := ns[t];
    if JoinLc(n) == ROOT_ROOT then Ok(false)
    else if n.section.None? && JoinLc(n) != ROOT_SECTION then Err(AssertionError)
    else
      var b :- TermIs(n, pat);
      if !b then Ok(false)
      else
        var s :- InSection(ns, t, section);
        Ok(s && (value.None? || value.value == n.value))
  }

  /** find's test on one term, as a total function of the term's index. */
  function Match(ns: seq<Node>, pat: string, value: Option<Option<string>>, section: SectionSel): (f: nat -> Result<bool>)
    requires Valid(ns)
    ensures forall t: nat :: t < |ns| ==> f(t) == FindStep(ns, t, pat, value, section)
  {
    (t: nat) => if t < |ns| then FindStep(ns, t, pat, value, section) else Ok(false)
  }

  /** The matches of find among the terms `ts`, in order. */
  function FindIn(ns: seq<Node>, ts: seq<nat>, pat: string, value: Option<Option<string>>, section: SectionSel): Result<seq<nat>>
    requires Valid(ns)
  {
    FilterOk(ts, Match(ns, pat, value, section))
  }

  /** find returns only terms it was given that pass the tests. */
  lemma FindInSound(ns: seq<Node>, ts: seq<nat>, pat: string, value: Option<Option<string>>, section: SectionSel)
    requires Valid(ns) && InRange(ns, ts) && FindIn(ns, ts, pat, value, section).Ok?
    ensures forall t :: t in FindIn(ns, ts, pat, value, section).value ==>
      t in ts && t < |ns| && Found(ns, t, pat, value, section)
  {
    FilterOkSound(ts, Match(ns, pat, value, section));
  }

  /** find misses no term: every term that passes the tests is returned. */
  lemma FindInComplete(ns: seq<Node>, ts: seq<nat>, pat: string, value: Option<Option<string>>,
                       section: SectionSel, t: nat)
    requires Valid(ns) && FindIn(ns, ts, pat, value, section).Ok?
    requires t in ts && t < |ns| && Found(ns, t, pat, value, section)
    ensures t in FindIn(ns, ts, pat, value, section).value
  {
    var f := Match(ns, pat, value, section);
    FilterOkAllOk(ts, f, t);
    assert f(t) == FindStep(ns, t, pat, value, section);
    FilterOkComplete(ts, f, t);
  }

  /**
   * find's loop over the generated terms: each is tested in turn (FindStep,
   * through Match), and a test that raises ends the search.
   */
  method FindLoop(gen: seq<nat>, f: nat -> Result<bool>) returns (r: Result<seq<nat>>)
    ensures r == FilterOk(gen, f)
  {
    var found: seq<nat> := [];
    var i := 0;
    while i < |gen|
      invariant 0 <= i <= |gen|
      invariant FilterOk(gen[..i], f) == Ok(found)
    {
      var t := gen[i];
      var step := f(t);
      if step.Err? {
        assert gen[..i] + [t] + gen[i + 1..] == gen;
        FilterOkStops(gen[..i], t, gen[i + 1..], f);
        return Err(step.error);
      }
      FilterOkSnoc(gen[..i], t, f);
      assert gen[..i + 1] == gen[..i] + [t];
      if step.value {
        found := found + [t];
      } else {
        assert found + [] == found;
      }
      i := i + 1;
    }
    assert gen[..i] == gen;
    r := Ok(found);
  }

  /** MetatabDoc.find with a single name: only terms of the table that pass the name, value and section tests. */
  function FindSpec(ns: seq<Node>, sections: Dict<string, nat>, term: string,
                    value: Option<Option<string>>, section: SectionSel): (r: Result<seq<nat>>)
    requires Valid(ns) && InTable(ns, sections)
    ensures r.Ok? ==> forall t :: t in r.value ==> t < |ns| && Found(ns, t, FindPattern(term), value, section)
  {
    var r := FindIn(ns, AllTerms(ns, sections), FindPattern(term), value, section);
    if r.Ok? then
      FindInSound(ns, AllTerms(ns, sections), FindPattern(term), value, section);
      r
    else r
  }

  /** find reaches child terms: a child of a section term that passes the tests is returned. */
  lemma FindSpecFindsChild(ns: seq<Node>, sections: Dict<string, nat>, term: string,
                           value: Option<Option<string>>, section: SectionSel, i: nat, t: nat, c: nat)
    requires Valid(ns) && InTable(ns, sections) && FindSpec(ns, sections, term, value, section).Ok?
    requires i < |sections| && t in ns[sections[i].1].terms && t < |ns| && c in ns[t].children
    requires c < |ns| && Found(ns, c, FindPattern(term), value, section)
    ensures c in FindSpec(ns, sections, term, value, section).value
  {
    ChildInAllTerms(ns, sections, i, t, c);
    FindInComplete(ns, AllTerms(ns, sections), FindPattern(term), value, section, c);
  }

  /** find on each name of a list, as a total function of the name. */
  function NameSearch(ns: seq<Node>, sections: Dict<string, nat>, value: Option<Option<string>>,
                      section: SectionSel): (f: string -> Result<seq<nat>>)
    requires Valid(ns) && InTable(ns, sections)
    ensures forall e :: f(e) == FindSpec(ns, sections, e, value, section)
  {
    e => FindSpec(ns, sections, e, value, section)
  }

  /** find with a list of names: the results for each name, concatenated. */
  function FindAnySpec(ns: seq<Node>, sections: Dict<string, nat>, terms: seq<string>,
                       value: Option<Option<string>>, section: SectionSel): (r: Result<seq<nat>>)
    requires Valid(ns) && InTable(ns, sections)
    ensures r.Ok? && terms != [] ==>
      FindSpec(ns, sections, terms[0], value, section).Ok? && FindSpec(ns, sections, terms[0], value, section).value <= r.value
  {
    ConcatOk(terms, NameSearch(ns, sections, value, section))
  }

  // ---------------------------------------------------------------------
  // find with keyword arguments

  /** The value of a keyword argument as find compares it: None, a term object, or any other value. */
  datatype KwValue = NoneValue | TermObject(id: nat) | OtherValue(v: string)

  /** Term.get: the term that self[item] gives, or None (the default) when that raises KeyError. */
  function TermGet(ns: seq<Node>, t: nat, item: string): (r: Result<Option<nat>>)
    requires Valid(ns) && t < |ns|
    ensures r.Ok? && r.value.Some? ==> r.value.value < |ns|
  {
    match GetItem(ns, t, item)
    case Ok(c) => Ok(Some(c))
    case Err(e) => if e == KeyError then Ok(None) else Err(e)
  }

  /**
   * t.get(k) == v. Term defines no __eq__, so a term equals only itself, and
   * never a string or None.
   */
  function KwEquals(got: Option<nat>, v: KwValue): bool
  {
    match v
    case NoneValue => got.None?
    case TermObject(i) => got == Some(i)
    case OtherValue(_) => false
  }

  /** all(t.get(k) == v for k, v in kwargs.items()), evaluated left to right. */
  function KwAll(ns: seq<Node>, t: nat, kwargs: seq<(string, KwValue)>): (r: Result<bool>)
    requires Valid(ns) && t < |ns|
    ensures r == Ok(true) ==> forall i :: 0 <= i < |kwargs| ==> !kwargs[i].1.OtherValue?
  {
    if kwargs == [] then Ok(true)
    else
      var got :- TermGet(ns, t, kwargs[0].0);
      if !KwEquals(got, kwargs[0].1) then Ok(false)
      else
        var rest := KwAll(ns, t, kwargs[1..]);
        assert rest == Ok(true) ==> forall i :: 1 <= i < |kwargs| ==> kwargs[1..][i - 1] == kwargs[i];
        rest
  }

  /** The keyword test as a total function of the term's index. */
  function KwTest(ns: seq<Node>, kwargs: seq<(string, KwValue)>): (f: nat -> Result<bool>)
    requires Valid(ns)
    ensures forall t: nat :: t < |ns| ==> f(t) == KwAll(ns, t, kwargs)
  {
    (t: nat) => if t < |ns| then KwAll(ns, t, kwargs) else Ok(false)
  }

  /**
   * MetatabDoc.find with keyword arguments: with none, the list of names is
   * searched as find does; with some, the terms that search finds are kept
   * when every keyword test holds.
   */
  function FindKwSpec(ns: seq<Node>, sections: Dict<string, nat>, terms: seq<string>,
                      value: Option<Option<string>>, section: SectionSel, kwargs: seq<(string, KwValue)>): (r: Result<seq<nat>>)
    requires Valid(ns) && InTable(ns, sections)
    ensures r.Ok? ==> FindAnySpec(ns, sections, terms, value, section).Ok?
    ensures r.Ok? ==> forall t :: t in r.value ==> t in FindAnySpec(ns, sections, terms, value, section).value
  {
    var found :- FindAnySpec(ns, sections, terms, value, section);
    if kwargs == [] then Ok(found)
    else
      var r := FilterOk(found, KwTest(ns, kwargs));
      if r.Ok? then
        FilterOkSound(found, KwTest(ns, kwargs));
        r
      else r
  }

  /**
   * As written, a keyword argument whose value is a string (the documented
   * use, `find('Root.Table', name='foo')`) matches no term: find returns
   * nothing or raises.
   */
  lemma FindKwStringMatchesNothing(ns: seq<Node>, sections: Dict<string, nat>, terms: seq<string>,
                                   value: Option<Option<string>>, section: SectionSel,
                                   kwargs: seq<(string, KwValue)>, i: nat)
    requires Valid(ns) && InTable(ns, sections) && FindKwSpec(ns, sections, terms, value, section, kwargs).Ok?
    requires i < |kwargs| && kwargs[i].1.OtherValue?
    ensures FindKwSpec(ns, sections, terms, value, section, kwargs).value == []
  {
    var found := FindAnySpec(ns, sections, terms, value, section).value;
    var f := KwTest(ns, kwargs);
    FindAnyInRange(ns, sections, terms, value, section);
    forall t | t in found
      ensures f(t) != Ok(true)
    {
      assert t < |ns| && f(t) == KwAll(ns, t, kwargs);
    }
    FilterOkNone(found, f);
  }

  /** find with a list of names returns terms of the table. */
  lemma {:induction false} FindAnyInRange(ns: seq<Node>, sections: Dict<string, nat>, terms: seq<string>,
                                          value: Option<Option<string>>, section: SectionSel)
    requires Valid(ns) && InTable(ns, sections) && FindAnySpec(ns, sections, terms, value, section).Ok?
    ensures InRange(ns, FindAnySpec(ns, sections, terms, value, section).value)
  {
    if terms != [] {
      var here := FindSpec(ns, sections, terms[0], value, section).value;
      var rest := FindAnySpec(ns, sections, terms[1..], value, section).value;
      assert FindAnySpec(ns, sections, terms, value, section) == Ok(here + rest);
      FindInSound(ns, AllTerms(ns, sections), FindPattern(terms[0]), value, section);
      FindAnyInRange(ns, sections, terms[1..], value, section);
      forall k | 0 <= k < |here + rest|
        ensures (here + rest)[k] < |ns|
      {
        if k < |here| {
          assert here[k] in here;
        } else {
          assert (here + rest)[k] == rest[k - |here|];
        }
      }
    }
  }

  /** The evidently intended test: every named property of the term has the given value. */
  function KwAllIntended(ns: seq<Node>, t: nat, kwargs: seq<(string, Option<string>)>): (r: Result<bool>)
    requires Valid(ns) && t < |ns|
    ensures r.Ok? <==> forall i :: 0 <= i < |kwargs| ==> GetValue(ns, t, kwargs[i].0, None).Ok?
    ensures r.Ok? ==> (r.value <==> forall i :: 0 <= i < |kwargs| ==> GetValue(ns, t, kwargs[i].0, None) == Ok(kwargs[i].1))
  {
    if kwargs == [] then Ok(true)
    else
      var got :- GetValue(ns, t, kwargs[0].0, None);
      var rest := KwAllIntended(ns, t, kwargs[1..]);
      assert forall i :: 1 <= i < |kwargs| ==> kwargs[1..][i - 1] == kwargs[i];
      match rest
      case Err(e) => Err(e)
      case Ok(b) => Ok(got == kwargs[0].1 && b)
  }

  /**
   * find with keyword arguments as the docstring describes it: the found
   * terms whose properties match them all.
   */
  function FindKwIntended(ns: seq<Node>, sections: Dict<string, nat>, terms: seq<string>,
                          value: Option<Option<string>>, section: SectionSel, kwargs: seq<(string, Option<string>)>): Result<seq<nat>>
    requires Valid(ns) && InTable(ns, sections)
  {
    var found :- FindAnySpec(ns, sections, terms, value, section);
    FilterOk(found, (t: nat) => if t < |ns| then KwAllIntended(ns, t, kwargs) else Ok(false))
  }

  /** The intended find keeps exactly the found terms whose properties match. */
  lemma FindKwIntendedExact(ns: seq<Node>, sections: Dict<string, nat>, terms: seq<string>,
                            value: Option<Option<string>>, section: SectionSel, kwargs: seq<(string, Option<string>)>, t: nat)
    requires Valid(ns) && InTable(ns, sections) && FindKwIntended(ns, sections, terms, value, section, kwargs).Ok?
    ensures t in FindKwIntended(ns, sections, terms, value, section, kwargs).value <==>
      && t in FindAnySpec(ns, sections, terms, value, section).value && t < |ns|
      && forall i :: 0 <= i < |kwargs| ==> GetValue(ns, t, kwargs[i].0, None) == Ok(kwargs[i].1)
  {
    var found := FindAnySpec(ns, sections, terms, value, section).value;
    var f := (t: nat) => if t < |ns| then KwAllIntended(ns, t, kwargs) else Ok(false);
    FilterOkSound(found, f);
    FindAnyInRange(ns, sections, terms, value, section);
    if t in found {
      FilterOkAllOk(found, f, t);
      if f(t) == Ok(true) {
        FilterOkComplete(found, f, t);
      }
    }
  }

  // ---------------------------------------------------------------------
  // _generate_identity_name and Resource._name_for_col_term

  /** The non-blank parts, each with '-' replaced by '_' and then slugified. */
  function SlugParts(parts: seq<Option<string>>, slug: string -> string): (r: seq<string>)
    ensures |r| <= |parts|
  {
    if parts == [] then []
    else
      var rest := SlugParts(parts[1..], slug);
      if Truthy(parts[0]) && !IsBlank(parts[0].value) then [slug(Replace(parts[0].value, "-", "_"))] + rest else rest
  }

  /** The identity name: the slugified non-blank parts joined with '-'. */
  function IdentityName(parts: seq<Option<string>>, slug: string -> string): string
  {
    Text.Join("-", SlugParts(parts, slug))
  }

  /** When no slug holds '-', the name splits back into the slugged parts. */
  lemma IdentityNameSplits(parts: seq<Option<string>>, slug: string -> string)
    requires forall s :: '-' !in slug(s)
    requires SlugParts(parts, slug) != []
    ensures Split(IdentityName(parts, slug), '-') == SlugParts(parts, slug)
  {
    SlugPartsFree(parts, slug);
    JoinSplit(SlugParts(parts, slug), '-');
  }

  lemma {:induction false} SlugPartsFree(parts: seq<Option<string>>, slug: string -> string)
    requires forall s :: '-' !in slug(s)
    ensures forall i :: 0 <= i < |SlugParts(parts, slug)| ==> '-' !in SlugParts(parts, slug)[i]
  {
    if parts != [] { SlugPartsFree(parts[1..], slug); }
  }

  /** A blank or missing part contributes nothing, and a present one contributes its slug, in place. */
  lemma SlugPartsCons(p: Option<string>, parts: seq<Option<string>>, slug: string -> string)
    ensures SlugParts([p] + parts, slug)
         == (if Truthy(p) && !IsBlank(p.value) then [slug(Replace(p.value, "-", "_"))] else []) + SlugParts(parts, slug)
  {
    assert ([p] + parts)[1..] == parts;
  }

  /** The column name: altname if set, else name if set, else col<i>. */
  function ColName(altname: Option<string>, name: Option<string>, i: int): (r: string)
    ensures r != ""
    ensures Truthy(altname) ==> r == altname.value
    ensures !Truthy(altname) && Truthy(name) ==> r == name.value
    ensures !Truthy(altname) && !Truthy(name) ==> r == "col" + IntToString(i)
  {
    if Truthy(altname) then altname.value
    else if Truthy(name) then name.value
    else "col" + IntToString(i)
  }

  /** Resource._name_for_col_term, on a column term `c`. */
  function NameForColTerm(ns: seq<Node>, c: nat, i: int): (r: Result<string>)
    requires Valid(ns) && c < |ns|
    ensures r.Ok? ==> r.value != ""
    ensures r.Ok? <==> GetValue(ns, c, "altname", None).Ok? && GetValue(ns, c, "name", None).Ok?
    ensures r.Ok? ==> r.value == ColName(GetValue(ns, c, "altname", None).value, GetValue(ns, c, "name", None).value, i)
  {
    var altname :- GetValue(ns, c, "altname", None);
    var name :- GetValue(ns, c, "name", None);
    Ok(ColName(altname, name, i))
  }

  // ---------------------------------------------------------------------
  // MetatabDoc.rows

  /** A row of the written document; a Python None is a missing cell value. */
  type Row = seq<Option<string>>

  function SomeAll(xs: seq<string>): (r: Row)
    ensures |r| == |xs| && forall k :: 0 <= k < |xs| ==> r[k] == Some(xs[k])
  {
    if xs == [] then [] else [Some(xs[0])] + SomeAll(xs[1..])
  }

  /** A row name as the document writes it: root. taken out, then title-cased. */
  function RowName(term: string): string
  {
    Title(Replace(term, "root.", ""))
  }

  /** `[term] + value` for an argument list, and `[term, value]` for a single value. */
  function OutRow(r: SectionRow): (row: Row)
    ensures |row| >= 1 && row[0] == Some(RowName(r.term))
    ensures r.ArgsRow? ==> row[1..] == r.args
    ensures r.PropRow? ==> row[1..] == [r.value]
  {
    match r
    case ArgsRow(t, args) => [Some(RowName(t))] + args
    case PropRow(t, v) => [Some(RowName(t)), v]
  }

  function OutRows(rs: seq<SectionRow>): (r: seq<Row>)
    ensures |r| == |rs| && forall k :: 0 <= k < |rs| ==> r[k] == OutRow(rs[k])
  {
    if rs == [] then [] else [OutRow(rs[0])] + OutRows(rs[1..])
  }

  /** The header rows of a section: none for Root, else [''] and the Section row with its property names. */
  function SectionHeader(s: Node): (r: seq<Row>)
    ensures s.value == Some("Root") ==> r == []
    ensures s.value != Some("Root") ==>
      |r| == 2 && r[0] == [Some("")] && r[1] == [Some("Section"), s.value] + SomeAll(PropertyNames(s))
  {
    if s.value != Some("Root") then [[Some("")], [Some("Section"), s.value] + SomeAll(PropertyNames(s))] else []
  }

  /** The rows one section contributes: its header rows, then the rows of its terms. */
  function SectionBlock(ns: seq<Node>, s: nat, declTerms: Dict<string, TermDecl>): (r: Result<seq<Row>>)
    requires Valid(ns) && s < |ns|
    ensures r.Ok? <==> SectionRows(ns, s, declTerms).Ok?
    ensures r.Ok? ==> r.value == SectionHeader(ns[s]) + OutRows(SectionRows(ns, s, declTerms).value)
  {
    var body :- SectionRows(ns, s, declTerms);
    Ok(SectionHeader(ns[s]) + OutRows(body))
  }

  /** SectionBlock as a total function of a registry entry. */
  function Block(ns: seq<Node>, declTerms: Dict<string, TermDecl>): (f: ((string, nat)) -> Result<seq<Row>>)
    requires Valid(ns)
    ensures forall e: (string, nat) :: e.1 < |ns| ==> f(e) == SectionBlock(ns, e.1, declTerms)
  {
    (e: (string, nat)) => if e.1 < |ns| then SectionBlock(ns, e.1, declTerms) else Ok([])
  }

  /** MetatabDoc.rows: each section's block of rows, in section order. */
  function DocRows(ns: seq<Node>, sections: Dict<string, nat>, declTerms: Dict<string, TermDecl>): Result<seq<Row>>
    requires Valid(ns)
  {
    ConcatOk(sections, Block(ns, declTerms))
  }

  /** The rows of a document follow its sections in order. */
  lemma DocRowsAppend(ns: seq<Node>, a: Dict<string, nat>, b: Dict<string, nat>, declTerms: Dict<string, TermDecl>)
    requires Valid(ns)
    requires DocRows(ns, a, declTerms).Ok? && DocRows(ns, b, declTerms).Ok?
    ensures DocRows(ns, a + b, declTerms) == Ok(DocRows(ns, a, declTerms).value + DocRows(ns, b, declTerms).value)
  {
    ConcatOkAppend(a, b, Block(ns, declTerms));
  }

  /** A document with one more section: its rows end with that section's block. */
  lemma DocRowsSnoc(ns: seq<Node>, a: Dict<string, nat>, e: (string, nat), declTerms: Dict<string, TermDecl>)
    requires Valid(ns) && e.1 < |ns|
    requires DocRows(ns, a, declTerms).Ok? && SectionRows(ns, e.1, declTerms).Ok?
    ensures DocRows(ns, a + [e], declTerms)
         == Ok(DocRows(ns, a, declTerms).value + SectionBlock(ns, e.1, declTerms).value)
  {
    var f := Block(ns, declTerms);
    assert f(e) == SectionBlock(ns, e.1, declTerms);
    ConcatOkSingle([e], f);
    ConcatOkAppend(a, [e], f);
  }

  // ---------------------------------------------------------------------
  // Calls of SectionTerm(...)

  /** The parameters of SectionTerm.__init__ (metatab/terms.py:645-646) in order; the first two have no default. */
  const SECTION_TERM_PARAMS: seq<string> :=
    ["term", "value", "term_args", "row", "col", "file_name", "file_type", "parent", "doc", "section"]

  /**
   * Python's binding of a call's arguments to the parameters `params`, of
   * which the first `required` have no default: `positional` arguments by
   * position, then the named `keywords`. TypeError for too many positional
   * arguments, an unknown keyword, a parameter given both by position and
   * by keyword, or a parameter without default given neither way.
   */
  function BindArgs(params: seq<string>, required: nat, positional: nat, keywords: seq<string>): (r: Result<()>)
    requires required <= |params|
    requires forall i, j :: 0 <= i < j < |params| ==> params[i] != params[j]   // a repeated name is a SyntaxError
    ensures r.Err? ==> r.error == TypeError
    ensures r.Ok? <==>
      && positional <= |params|
      && (forall k :: 0 <= k < |keywords| ==> keywords[k] in params[positional..])
      && (forall p :: positional <= p < required ==> params[p] in keywords)
  {
    if positional > |params| then Err(TypeError)
    else if exists k :: 0 <= k < |keywords| && keywords[k] !in params then Err(TypeError)
    else if exists k :: 0 <= k < |keywords| && keywords[k] in params[..positional] then Err(TypeError)
    else if exists p :: positional <= p < required && params[p] !in keywords then Err(TypeError)
    else
      assert forall k :: 0 <= k < |keywords| ==> keywords[k] in params[positional..] by {
        forall k | 0 <= k < |keywords| ensures keywords[k] in params[positional..] {
          var i :| 0 <= i < |params| && params[i] == keywords[k];
          assert i >= positional;
          assert params[positional..][i - positional] == keywords[k];
        }
      }
      Ok(())
  }

  /**
   * The document made without a ref calls SectionTerm('Root', term='Root',
   * doc=self, row=0, col=0, file_name=None, parent=None): 'Root' already
   * fills `term` by position, so the call raises TypeError.
   */
  lemma RootSectionCallRaises()
    ensures BindArgs(SECTION_TERM_PARAMS, 2, 1, ["term", "doc", "row", "col", "file_name", "parent"]) == Err(TypeError)
  {
    var kws := ["term", "doc", "row", "col", "file_name", "parent"];
    assert kws[0] !in SECTION_TERM_PARAMS[1..];
  }

  /**
   * new_section and get_or_new_section call SectionTerm(name,
   * term_args=params, doc=self, parent=self.root): `value` is given
   * neither way, so the call raises TypeError.
   */
  lemma NewSectionCallRaises()
    ensures BindArgs(SECTION_TERM_PARAMS, 2, 1, ["term_args", "doc", "parent"]) == Err(TypeError)
  {
    var kws := ["term_args", "doc", "parent"];
    assert SECTION_TERM_PARAMS[1] == "value" && "value" !in kws;
  }

  // ---------------------------------------------------------------------
  // The document

  /** The section-name keys, which add_section always lower-cases. */
  ghost predicate SectionKeysLower(sections: Dict<string, nat>)
  {
    forall k :: 0 <= k < |sections| ==> IsLower(sections[k].0)
  }

  /** Dropping a section keeps the other entries in range and lower-cased. */
  lemma RemoveSectionKeeps(ns: seq<Node>, sections: Dict<string, nat>, key: string)
    requires InTable(ns, sections) && SectionKeysLower(sections)
    ensures InTable(ns, Remove(sections, key)) && SectionKeysLower(Remove(sections, key))
  {
    var r := Remove(sections, key);
    forall k | 0 <= k < |r| ensures r[k].1 < |ns| && IsLower(r[k].0) {
      assert r[k] in r;
      var j :| 0 <= j < |sections| && sections[j] == r[k];
    }
  }

  /** The names of a section declaration are looked up case-insensitively. */
  lemma SectionArgsAnyCase(decls: Dict<string, SectionDecl>, name: string)
    ensures SectionArgs(decls, name) == SectionArgs(decls, Lower(name))
    ensures !Has(decls, Lower(name)) ==> SectionArgs(decls, name) == []
  {
    LowerIdempotent(name);
  }

  /** A term that load_terms hands to add_term: a root-level term that is not a section. */
  predicate RootLevel(n: Node)
  {
    n.kind == Plain && JoinLc(n) != ROOT_ROOT && JoinLc(n) != ROOT_SECTION && Lower(n.parentTerm) == ROOT_TERM
  }

  ghost predicate AllPlaced(ns: seq<Node>, ts: seq<nat>, terms: seq<nat>)
    requires InRange(ns, ts)
  {
    forall k :: 0 <= k < |ts| && RootLevel(ns[ts[k]]) ==> ts[k] in terms
  }

  lemma PlacedKeep(ns: seq<Node>, ns2: seq<Node>, ts: seq<nat>, t: nat, terms: seq<nat>, terms2: seq<nat>)
    requires InRange(ns, ts + [t]) && SameNames(ns, ns2) && terms <= terms2
    requires t < |ns| && InRange(ns, ts) && AllPlaced(ns, ts, terms) && (RootLevel(ns2[t]) ==> t in terms2)
    ensures InRange(ns2, ts + [t]) && AllPlaced(ns2, ts + [t], terms2)
  {
    var us := ts + [t];
    forall k | 0 <= k < |us| && RootLevel(ns2[us[k]]) ensures us[k] in terms2 {
      if k < |ts| {
        assert us[k] == ts[k];
        assert RootLevel(ns[ts[k]]);
        assert ts[k] in terms;
      }
    }
  }

  /** The loop of __delitem__: each of `ts` taken out of `terms` in turn. */
  method RemoveEachLoop(ns: seq<Node>, terms: seq<nat>, ts: seq<nat>) returns (r: Result<seq<nat>>)
    requires InRange(ns, terms) && NoDup(terms)
    ensures r == RemoveEach(terms, ts)
    ensures r.Ok? ==> InRange(ns, r.value) && NoDup(r.value)
  {
    var cur := terms;
    var i := 0;
    while i < |ts|
      invariant 0 <= i <= |ts|
      invariant InRange(ns, cur) && NoDup(cur)
      invariant RemoveEach(cur, ts[i..]) == RemoveEach(terms, ts)
    {
      RemoveEachStep(cur, ts, i);
      if ts[i] !in cur {
        return Err(ValueError);
      }
      RemoveFirstNoDup(cur, ts[i]);
      RemoveInRange(ns, cur, ts[i]);
      cur := RemoveFirst(cur, ts[i]);
      i := i + 1;
    }
    assert ts[i..] == [];
    return Ok(cur);
  }

  class MetatabDoc {
    const table: TermTable
    var terms: seq<nat>                       // the root-level terms
    var sections: Dict<string, nat>           // lower-cased section name to section term
    var root: Option<nat>
    var declTerms: Dict<string, TermDecl>
    var declSections: Dict<string, SectionDecl>

    ghost predicate Valid()
      reads this, table
    {
      && table.Valid()
      && InRange(table.nodes, terms)
      && NoDup(terms)
      && InTable(table.nodes, sections)
      && SectionKeysLower(sections)
      && (root.Some? ==> root.value < |table.nodes|)
    }

    /**
     * A document over `table` with no terms and no sections: the state
     * __init__ builds for a ref before load_terms fills it. Without a ref
     * __init__ raises TypeError at the root section (RootSectionCallRaises).
     */
    constructor(table: TermTable)
      requires table.Valid()
      ensures Valid() && this.table == table
      ensures terms == [] && sections == [] && root == None && declTerms == [] && declSections == []
    {
      this.table := table;
      terms := [];
      sections := [];
      root := None;
      declTerms := [];
      declSections := [];
    }

    /** __contains__: a case-insensitive test on the section names. */
    function Contains(item: string): (r: bool)
      reads this
      ensures r <==> Lower(item) in Keys(sections)
    {
      HasKeys(sections, Lower(item));
      Has(sections, Lower(item))
    }

    /** get_section: the section registered under the lower-cased name, or KeyError. */
    function GetSection(name: string): (r: Result<nat>)
      reads this
      ensures r.Ok? <==> Contains(name)
      ensures r.Err? ==> r.error == KeyError
      ensures r.Ok? ==> (Lower(name), r.value) in sections
    {
      match Get(sections, Lower(name))
      case Some(s) => Ok(s)
      case None => Err(KeyError)
    }

    /**
     * get_or_new_section: membership is tested with the name as given, but
     * sections are stored under the lower-cased name; the creating branch
     * builds a SectionTerm without its required value argument, which
     * raises TypeError before anything is stored (NewSectionCallRaises).
     */
    function GetOrNewSection(name: string): (r: Result<nat>)
      reads this
      ensures Has(sections, name) ==> r == GetSection(name)
      ensures !Has(sections, name) ==> r == Err(TypeError)
    {
      if Has(sections, name) then GetSection(name) else Err(TypeError)
    }

    /** A name that is not lower case is never found by get_or_new_section, although get_section finds it. */
    lemma GetOrNewSectionCase(name: string)
      requires Valid() && !IsLower(name) && Contains(name)
      ensures GetOrNewSection(name) == Err(TypeError)
      ensures GetSection(name).Ok?
    {
    }

    /**
     * add_section: register under the lower-cased value unless a section of
     * that name exists; either way, return the registered section.
     */
    method AddSection(s: nat) returns (r: Result<nat>)
      requires Valid() && s < |table.nodes|
      modifies this
      ensures Valid()
      ensures terms == old(terms) && root == old(root)
      ensures declTerms == old(declTerms) && declSections == old(declSections)
      ensures table.nodes[s].kind == Plain ==> r == Err(AssertionError)
      ensures table.nodes[s].kind != Plain && table.nodes[s].value.None? ==> r == Err(AttributeError)
      ensures r.Err? ==> sections == old(sections)
      ensures table.nodes[s].kind != Plain && table.nodes[s].value.Some? ==>
        var key := Lower(table.nodes[s].value.value);
        && r.Ok?
        && (Has(old(sections), key) ==> Get(old(sections), key) == Some(r.value) && sections == old(sections))
        && (!Has(old(sections), key) ==> r.value == s && sections == old(sections) + [(key, s)])
      ensures old(sections) <= sections
      ensures r.Ok? ==> r.value < |table.nodes| && table.nodes[s].value.Some? && Has(sections, Lower(table.nodes[s].value.value))
    {
      var n := table.nodes[s];
      if n.kind == Plain {
        return Err(AssertionError);
      }
      if n.value.None? {
        return Err(AttributeError);
      }
      var key := Lower(n.value.value);
      LowerIdempotent(n.value.value);
      if Has(sections, key) {
        r := Ok(Get(sections, key).value);
      } else {
        GetAppendNew(sections, key, s);
        sections := sections + [(key, s)];
        assert sections[|sections| - 1].0 == key;
        r := Ok(s);
      }
    }

    /**
     * The body of add_term for a term not yet listed: the ownership
     * assertion, then a section term goes to the sections and any other
     * term to the end of the term list.
     */
    method AddTermHere(t: nat) returns (r: Result<()>)
      requires Valid() && t < |table.nodes| && t !in terms
      modifies this
      ensures Valid() && root == old(root)
      ensures declTerms == old(declTerms) && declSections == old(declSections)
      ensures table.nodes[t].section.None? && JoinLc(table.nodes[t]) != ROOT_ROOT ==> r == Err(AssertionError)
      ensures table.nodes[t].kind == Plain ==> sections == old(sections)
      ensures table.nodes[t].kind == Plain && r.Ok? ==> terms == old(terms) + [t]
      ensures table.nodes[t].kind != Plain || r.Err? ==> terms == old(terms)
      ensures old(sections) <= sections
      ensures r.Ok? && table.nodes[t].kind != Plain ==> table.nodes[t].value.Some? && Has(sections, Lower(table.nodes[t].value.value))
    {
      var n := table.nodes[t];
      if n.section.None? && JoinLc(n) != ROOT_ROOT {
        return Err(AssertionError);
      }
      if n.kind != Plain {
        var s := AddSection(t);
        if s.Err? {
          return Err(s.error);
        }
      } else {
        NoDupSnoc(terms, t);
        terms := terms + [t];
      }
      r := Ok(());
    }

    /**
     * SectionTerm.add_term on section `sec`: a root-level term not yet in
     * the section is appended to its terms, given to the document (without
     * re-entering the section) and passes its section down to its children;
     * a term with another parent raises GenerateError.
     */
    method SectionAddTerm(sec: nat, t: nat) returns (r: Result<()>)
      requires Valid() && sec < |table.nodes| && t < |table.nodes|
      modifies this, table
      ensures Valid() && root == old(root) && SameNames(old(table.nodes), table.nodes)
      ensures declTerms == old(declTerms) && declSections == old(declSections)
      ensures t !in old(table.nodes)[sec].terms && Lower(old(table.nodes)[t].parentTerm) != ROOT_TERM ==> r == Err(GenerateError)
      ensures r.Ok? && t !in old(table.nodes)[sec].terms ==> table.nodes[sec].terms == old(table.nodes)[sec].terms + [t]
      ensures terms == old(terms) || (terms == old(terms) + [t] && old(t !in terms))
      ensures old(t in terms) || table.nodes[t].kind != Plain ==> terms == old(terms)
      ensures old(sections) <= sections
    {
      if t !in table.nodes[sec].terms {
        if Lower(table.nodes[t].parentTerm) != ROOT_TERM {
          return Err(GenerateError);
        }
        table.AppendSectionTerm(sec, t);
        ghost var after := table.nodes;
        if t !in terms {
          var a := AddTermHere(t);
          if a.Err? {
            return a;
          }
        }
        r := table.SetOwnership(t);
        SameNamesTrans(old(table.nodes), after, table.nodes);
        if r.Err? {
          return;
        }
        assert table.nodes[sec].terms == after[sec].terms;
      }
      if table.nodes[t].section.None? && JoinLc(table.nodes[t]) != ROOT_ROOT {
        return Err(AssertionError);
      }
      r := Ok(());
    }

    /**
     * add_term: a term already listed is ignored; otherwise it is placed
     * (AddTermHere) and, when `addSection` holds and it is a root-level
     * term with a section, its section is registered (coalesced), becomes
     * the term's section, and takes the term in.
     */
    method AddTerm(t: nat, addSection: bool) returns (r: Result<()>)
      requires Valid() && t < |table.nodes|
      modifies this, table
      ensures Valid() && root == old(root) && SameNames(old(table.nodes), table.nodes)
      ensures declTerms == old(declTerms) && declSections == old(declSections)
      ensures old(t in terms) ==> r == Ok(()) && terms == old(terms) && sections == old(sections) && table.nodes == old(table.nodes)
      ensures r.Ok? && table.nodes[t].kind == Plain ==> t in terms
      ensures table.nodes[t].kind == Plain ==> terms == old(terms) || terms == old(terms) + [t]
      ensures table.nodes[t].kind != Plain ==> terms == old(terms)
      ensures r.Ok? && old(t !in terms) && table.nodes[t].kind != Plain ==>
        table.nodes[t].value.Some? && Has(sections, Lower(table.nodes[t].value.value))
      ensures old(sections) <= sections
    {
      if t in terms {
        return Ok(());
      }
      r := AddTermHere(t);
      if r.Err? {
        return;
      }
      var n := table.nodes[t];
      ghost var placed := sections;
      if addSection && n.section.Some? && Lower(n.parentTerm) == ROOT_TERM {
        var sec := AddSection(n.section.value);
        if sec.Err? {
          return Err(sec.error);
        }
        table.SetSection(t, sec.value);
        ghost var mid := table.nodes;
        r := SectionAddTerm(sec.value, t);
        SameNamesTrans(old(table.nodes), mid, table.nodes);
        if n.kind != Plain {
          HasPrefix(placed, sections, Lower(n.value.value));
        }
      }
    }

    /**
     * remove_term as written: after taking `t` out of the term list, a
     * root-level term with a section is taken out of the section, whose
     * remove_term calls back into the document's remove_term, so the second
     * terms.remove(t) raises ValueError; a term with a parent fails the same
     * way through remove_child. Only a term with neither link can be removed.
     */
    method RemoveTermAsWritten(t: nat) returns (r: Result<()>)
      requires Valid() && t < |table.nodes|
      modifies this, table
      ensures Valid()
      ensures t !in old(terms) ==> r == Err(ValueError)
      ensures var n := old(table.nodes)[t];
        n.section.Some? && Lower(n.parentTerm) == ROOT_TERM ==> r.Err?
      ensures old(table.nodes)[t].parent.Some? ==> r.Err?
      ensures r.Ok? ==> terms == RemoveFirst(old(terms), t) && t !in terms
    {
      if t !in terms {
        return Err(ValueError);
      }
      RemoveFirstNoDup(terms, t);
      RemoveInRange(table.nodes, terms, t);
      terms := RemoveFirst(terms, t);
      var n := table.nodes[t];
      if n.section.Some? && Lower(n.parentTerm) == ROOT_TERM {
        var sec := AddSection(n.section.value);
        if sec.Err? {
          return Err(sec.error);
        }
        table.SetSection(t, sec.value);
        table.RemoveRefs(sec.value, t, true);
        // SectionTerm.remove_term calls self.doc.remove_term(t), and t is no longer listed
        return Err(ValueError);
      }
      if n.parent.Some? {
        var p := n.parent.value;
        if t !in table.nodes[p].children {
          return Err(ValueError);
        }
        table.RemoveRefs(p, t, false);
        // remove_child calls self.doc.remove_term(child), and the child is no longer listed
        return Err(ValueError);
      }
      r := Ok(());
    }

    /**
     * The section step of remove_term: the term's section is registered
     * (coalesced), becomes its section, and drops the term from its term
     * list; nothing else in the table changes.
     */
    method LeaveSection(t: nat) returns (r: Result<()>, ghost sec: Option<nat>)
      requires Valid() && t < |table.nodes| && table.nodes[t].section.Some?
      modifies this, table
      ensures Valid() && |table.nodes| == |old(table.nodes)| && terms == old(terms)
      ensures forall j :: 0 <= j < |table.nodes| ==> table.nodes[j].children == old(table.nodes)[j].children
      ensures r.Ok? ==>
        && sec.Some? && sec.value < |table.nodes| && table.nodes[t].section == sec
        && table.nodes[sec.value].terms == RemoveFirst(old(table.nodes)[sec.value].terms, t)
    {
      sec := None;
      var s := AddSection(table.nodes[t].section.value);
      if s.Err? {
        return Err(s.error), sec;
      }
      sec := Some(s.value);
      ghost var before := table.nodes;
      table.SetSection(t, s.value);
      table.RemoveRefs(s.value, t, true);
      LeftSection(before, t, s.value);
      r := Ok(());
    }

    /** The parent step of remove_term: remove_child, which raises ValueError when `t` is not a child. */
    method LeaveParent(t: nat, p: nat) returns (r: Result<()>)
      requires Valid() && p < |table.nodes|
      modifies table
      ensures Valid()
      ensures r.Err? <==> t !in old(table.nodes)[p].children
      ensures r.Err? ==> r.error == ValueError && table.nodes == old(table.nodes)
      ensures r.Ok? ==> table.nodes == RemovedRef(old(table.nodes), p, t, false)
    {
      if t !in table.nodes[p].children {
        return Err(ValueError);
      }
      table.RemoveRefs(p, t, false);
      r := Ok(());
    }

    /**
     * remove_term as intended: `t` leaves the term list, its section's term
     * list and its parent's children. The ghost result is the section it
     * left.
     */
    method RemoveTerm(t: nat) returns (r: Result<()>, ghost sec: Option<nat>)
      requires Valid() && t < |table.nodes|
      modifies this, table
      ensures Valid() && |table.nodes| == |old(table.nodes)|
      ensures t !in old(terms) ==> r == Err(ValueError)
      ensures r.Ok? ==> terms == RemoveFirst(old(terms), t) && t !in terms
      ensures r.Ok? && old(table.nodes)[t].section.Some? && Lower(old(table.nodes)[t].parentTerm) == ROOT_TERM ==>
        sec.Some? && sec.value < |table.nodes| && table.nodes[t].section == sec
        && table.nodes[sec.value].terms == RemoveFirst(old(table.nodes)[sec.value].terms, t)
      ensures r.Ok? && old(table.nodes)[t].parent.Some? ==>
        var p := old(table.nodes)[t].parent.value;
        p < |table.nodes| && table.nodes[p].children == RemoveFirst(old(table.nodes)[p].children, t)
    {
      sec := None;
      if t !in terms {
        return Err(ValueError), sec;
      }
      RemoveFirstNoDup(terms, t);
      RemoveInRange(table.nodes, terms, t);
      terms := RemoveFirst(terms, t);
      r, sec := Detach(t);
    }

    /** The section and parent steps of remove_term; the term list is left as it is. */
    method Detach(t: nat) returns (r: Result<()>, ghost sec: Option<nat>)
      requires Valid() && t < |table.nodes|
      modifies this, table
      ensures Valid() && |table.nodes| == |old(table.nodes)| && terms == old(terms)
      ensures r.Ok? && old(table.nodes)[t].section.Some? && Lower(old(table.nodes)[t].parentTerm) == ROOT_TERM ==>
        sec.Some? && sec.value < |table.nodes| && table.nodes[t].section == sec
        && table.nodes[sec.value].terms == RemoveFirst(old(table.nodes)[sec.value].terms, t)
      ensures r.Ok? && old(table.nodes)[t].parent.Some? ==>
        var p := old(table.nodes)[t].parent.value;
        p < |table.nodes| && table.nodes[p].children == RemoveFirst(old(table.nodes)[p].children, t)
    {
      sec := None;
      var n := table.nodes[t];
      if n.section.Some? && Lower(n.parentTerm) == ROOT_TERM {
        r, sec := LeaveSection(t);
        if r.Err? {
          return;
        }
      }
      if n.parent.Some? {
        r := LeaveParent(t, n.parent.value);
        if r.Err? {
          return;
        }
      }
      r := Ok(());
    }

    /**
     * __delitem__: when the name, as given, is a key, each of that section's
     * terms is removed from the term list (ValueError when one is missing);
     * then the lower-cased name is deleted if present. A name that is not in
     * lower case therefore drops the section but keeps its terms.
     */
    method DelItem(item: string) returns (r: Result<()>)
      requires Valid()
      modifies this
      ensures Valid() && root == old(root)
      ensures declTerms == old(declTerms) && declSections == old(declSections)
      ensures !Has<string, nat>(old(sections), item) ==> r == Ok(()) && terms == old(terms) && sections == Remove(old(sections), Lower(item))
      ensures Has<string, nat>(old(sections), item) ==>
        var remaining := RemoveEach(old(terms), table.nodes[Get<string, nat>(old(sections), item).value].terms);
        (r.Err? <==> remaining.Err?) && (r.Ok? ==> terms == remaining.value && sections == Remove(old(sections), Lower(item)))
      ensures r.Err? ==> r.error == ValueError && sections == old(sections)
    {
      if Has(sections, item) {
        var s := Get(sections, item).value;
        var remaining := RemoveEachLoop(table.nodes, terms, table.nodes[s].terms);
        if remaining.Err? {
          return Err(ValueError);
        }
        terms := remaining.value;
      }
      RemoveSectionKeeps(table.nodes, sections, Lower(item));
      sections := Remove(sections, Lower(item));
      r := Ok(());
    }

    /** find: the loop over all_terms, proved equal to FindSpec. */
    method Find(term: string, value: Option<Option<string>>, section: SectionSel) returns (r: Result<seq<nat>>)
      requires Valid()
      ensures r == FindSpec(table.nodes, sections, term, value, section)
    {
      r := FindLoop(AllTerms(table.nodes, sections), Match(table.nodes, FindPattern(term), value, section));
    }

    /**
     * find with a list of names and keyword arguments: each name is searched
     * in turn and the results joined; with keyword arguments the joined
     * result is then filtered by them (KwAll).
     */
    method FindKw(names: seq<string>, value: Option<Option<string>>, section: SectionSel,
                  kwargs: seq<(string, KwValue)>) returns (r: Result<seq<nat>>)
      requires Valid()
      ensures r == FindKwSpec(table.nodes, sections, names, value, section, kwargs)
    {
      ghost var f := NameSearch(table.nodes, sections, value, section);
      var found: seq<nat> := [];
      var i := 0;
      assert names[..0] == [];
      while i < |names|
        invariant 0 <= i <= |names|
        invariant ConcatOk(names[..i], f) == Ok(found)
      {
        var here := Find(names[i], value, section);
        assert f(names[i]) == here;
        ConcatOkPrefix(names, i, f);
        if here.Err? {
          return Err(here.error);
        }
        found := found + here.value;
        i := i + 1;
      }
      assert names[..i] == names;
      assert FindAnySpec(table.nodes, sections, names, value, section) == Ok(found);
      if kwargs == [] {
        return Ok(found);
      }
      r := FindLoop(found, KwTest(table.nodes, kwargs));
    }

    /** find_first: the first result of find, or None. */
    function FindFirst(term: string, value: Option<Option<string>>, section: SectionSel): (r: Result<Option<nat>>)
      reads this, table
      requires Valid()
      ensures r.Ok? <==> FindSpec(table.nodes, sections, term, value, section).Ok?
      ensures r.Ok? && r.value.Some? ==>
        r.value.value < |table.nodes| && Found(table.nodes, r.value.value, FindPattern(term), value, section)
      ensures r.Ok? && r.value.None? ==> FindSpec(table.nodes, sections, term, value, section).value == []
      ensures r.Ok? ==> r.value == (var found := FindSpec(table.nodes, sections, term, value, section).value;
                                    if found == [] then None else Some(found[0]))
      ensures r.Err? ==> r.error == FindSpec(table.nodes, sections, term, value, section).error
    {
      var found :- FindSpec(table.nodes, sections, term, value, section);
      if found == [] then Ok(None)
      else
        FindInSound(table.nodes, AllTerms(table.nodes, sections), FindPattern(term), value, section);
        assert found[0] in found;
        Ok(Some(found[0]))
    }

    /** MetatabDoc.get_value: the first match's value, or the default when nothing matches. */
    function DocGetValue(term: string, default: Option<string>): (r: Result<Option<string>>)
      reads this, table
      requires Valid()
      ensures r.Ok? <==> FindFirst(term, None, AnySection).Ok?
      ensures r.Ok? && FindFirst(term, None, AnySection).value.None? ==> r.value == default
    {
      var t :- FindFirst(term, None, AnySection);
      if t.None? then Ok(default) else Ok(table.nodes[t.value].value)
    }

    /** One part of the identity name: the Name term's child, defaulting to the document's Root.<part>. */
    function IdentityPart(id: nat, part: string): (r: Result<Option<string>>)
      reads this, table
      requires Valid() && id < |table.nodes|
      ensures r.Ok? ==> DocGetValue("Root." + part, None).Ok?
    {
      var d :- DocGetValue("Root." + part, None);
      GetValue(table.nodes, id, "Name." + part, d)
    }

    /**
     * _generate_identity_name: the parts are read in the order dataset,
     * version, origin, time, space, grain and written in the order origin,
     * dataset, time, space, grain, version; a document without a Root.Name
     * term in the Root section raises AttributeError. The slug function is a
     * parameter.
     */
    function GenerateIdentityName(slug: string -> string): (r: Result<string>)
      reads this, table
      requires Valid()
      ensures FindFirst("Root.Name", None, Named("Root")) == Ok(None) ==> r == Err(AttributeError)
      ensures r.Ok? ==> FindFirst("Root.Name", None, Named("Root")).Ok?
    {
      var nt :- FindFirst("Root.Name", None, Named("Root"));
      if nt.None? then Err(AttributeError)
      else
        var datasetName :- IdentityPart(nt.value, "Dataset");
        var version :- IdentityPart(nt.value, "Version");
        var origin :- IdentityPart(nt.value, "Origin");
        var time :- IdentityPart(nt.value, "Time");
        var space :- IdentityPart(nt.value, "Space");
        var grain :- IdentityPart(nt.value, "Grain");
        Ok(IdentityName([origin, datasetName, time, space, grain, version], slug))
    }

    /** rows: the document written out, section by section. */
    function Rows(): Result<seq<Row>>
      reads this, table
      requires Valid()
    {
      DocRows(table.nodes, sections, declTerms)
    }

    /**
     * One pass of load_terms' loop: root.root becomes the root and a
     * section, root.section a section, a root-level term is added to the
     * document, and any other term must have a parent.
     */
    method LoadOne(t: nat) returns (r: Result<()>)
      requires Valid() && t < |table.nodes|
      modifies this, table
      ensures Valid() && SameNames(old(table.nodes), table.nodes) && old(terms) <= terms
      ensures declTerms == old(declTerms) && declSections == old(declSections)
      ensures r.Ok? && RootLevel(table.nodes[t]) ==> t in terms
      ensures r.Ok? && JoinLc(table.nodes[t]) == ROOT_ROOT ==> root == Some(t)
      ensures JoinLc(table.nodes[t]) == ROOT_ROOT || JoinLc(table.nodes[t]) == ROOT_SECTION ==> terms == old(terms)
      ensures JoinLc(table.nodes[t]) != ROOT_ROOT && JoinLc(table.nodes[t]) != ROOT_SECTION && Lower(table.nodes[t].parentTerm) != ROOT_TERM ==>
        r == (if table.nodes[t].parent.None? then Err(AssertionError) else Ok(()))
    {
      var n := table.nodes[t];
      TermIsRootNames(n);
      if JoinLc(n) == ROOT_ROOT {
        root := Some(t);
        var s := AddSection(t);
        if s.Err? {
          return Err(s.error);
        }
      } else if JoinLc(n) == ROOT_SECTION {
        var s := AddSection(t);
        if s.Err? {
          return Err(s.error);
        }
      } else if Lower(n.parentTerm) == ROOT_TERM {
        r := AddTerm(t, true);
        return;
      } else if n.parent.None? {
        return Err(AssertionError);
      }
      r := Ok(());
    }

    /**
     * load_terms: a document whose root already has children raises
     * MetatabError; otherwise root.root becomes the root and a section,
     * root.section becomes a section, a root-level term is added to the
     * document, and any other term must have a parent. The declarations,
     * when the term source has them, are merged in afterwards.
     */
    method LoadTerms(ts: seq<nat>, decls: Option<(Dict<string, TermDecl>, Dict<string, SectionDecl>)>) returns (r: Result<()>)
      requires Valid() && InRange(table.nodes, ts)
      modifies this, table
      ensures Valid() && |table.nodes| == |old(table.nodes)|
      ensures old(root).Some? && old(table.nodes)[old(root).value].children != [] ==> r == Err(MetatabError)
      ensures r.Ok? ==> InRange(table.nodes, ts) && AllPlaced(table.nodes, ts, terms)
      ensures r.Ok? && decls.Some? ==>
        declTerms == Update(old(declTerms), decls.value.0) && declSections == Update(old(declSections), decls.value.1)
      ensures r.Ok? && decls.None? ==> declTerms == old(declTerms) && declSections == old(declSections)
    {
      if root.Some? && table.nodes[root.value].children != [] {
        return Err(MetatabError);
      }
      var i := 0;
      while i < |ts|
        invariant 0 <= i <= |ts| && Valid() && |table.nodes| == |old(table.nodes)|
        invariant declTerms == old(declTerms) && declSections == old(declSections)
        invariant InRange(table.nodes, ts[..i]) && AllPlaced(table.nodes, ts[..i], terms)
      {
        var t := ts[i];
        ghost var prevNodes := table.nodes;
        ghost var prevTerms := terms;
        r := LoadOne(t);
        if r.Err? {
          return;
        }
        assert ts[..i + 1] == ts[..i] + [t];
        PlacedKeep(prevNodes, table.nodes, ts[..i], t, prevTerms, terms);
        i := i + 1;
      }
      assert ts[..i] == ts;
      if decls.Some? {
        declTerms := Update(declTerms, decls.value.0);
        declSections := Update(declSections, decls.value.1);
      }
      r := Ok(());
    }
  }

  /** The two table updates of remove_term's section step, and what they leave unchanged. */
  lemma LeftSection(ns: seq<Node>, t: nat, s: nat)
    requires t < |ns| && s < |ns|
    ensures var r := RemovedRef(ns[t := ns[t].(section := Some(s))], s, t, true);
      && |r| == |ns| && r[t].section == Some(s)
      && r[s].terms == RemoveFirst(ns[s].terms, t)
      && forall j :: 0 <= j < |ns| ==> r[j].children == ns[j].children
  {
    var u := ns[t := ns[t].(section := Some(s))];
    var r := RemovedRef(u, s, t, true);
    assert u[s].terms == ns[s].terms && u[s].children == ns[s].children;
    assert r[s] == u[s].(terms := RemoveFirst(u[s].terms, t));
    forall j | 0 <= j < |ns| ensures r[j].children == ns[j].children {
      if j != s { assert r[j] == u[j]; }
    }
  }

  lemma {:induction false} RemoveInRange(ns: seq<Node>, ts: seq<nat>, t: nat)
    requires InRange(ns, ts)
    ensures InRange(ns, RemoveFirst(ts, t))
  {
    if ts != [] && ts[0] != t {
      assert InRange(ns, ts[1..]);
      RemoveInRange(ns, ts[1..], t);
      var rest := RemoveFirst(ts[1..], t);
      assert RemoveFirst(ts, t) == [ts[0]] + rest;
    }
  }

  /** The term_is tests of load_terms are exact comparisons of join_lc. */
  lemma TermIsRootNames(n: Node)
    ensures TermIs(n, ROOT_ROOT) == Ok(JoinLc(n) == ROOT_ROOT)
    ensures TermIs(n, ROOT_SECTION) == Ok(JoinLc(n) == ROOT_SECTION)
  {
    PlainWord(ROOT_TERM);
    PlainWord("section");
    TermIsPlainName(n, ROOT_TERM, ROOT_TERM);
    TermIsPlainName(n, ROOT_TERM, "section");
  }
}
