// Properties of the TermParser model (metatab/parser.py) that relate
// several of its steps: the synonyms dict against a reference reading,
// the effects of a section term, the positional rename that follows it,
// the undeclared-section error of a declared term, and the order of
// registration and lookup for first-column terms.
module ParserProps {
  import opened Wrappers
  import opened Text
  import opened ODict
  import opened Terms
  import opened TermObjects
  import opened Scans
  import opened Parser

  // ---------------------------------------------------------------------
  // Synonyms

  /** One declared term makes `k` a synonym key: it has a synonym and `k` is its stripped, lower-cased name (or root.<name> when it has no dot). */
  predicate SynKey(e: (string, TermDecl), k: string)
  {
    var name := Strip(e.0);
    && Truthy(Prop(e.1, "synonym"))
    && (k == Lower(name) || ('.' !in name && k == ROOT_TERM + "." + Lower(name)))
  }

  /** Reference reading of the synonyms dict: the synonym of the last declared term that makes `k` a key. */
  function LastSynonym(dt: Dict<string, TermDecl>, k: string): Option<string>
  {
    match LastWhere(dt, e => SynKey(e, k))
    case None => None
    case Some(i) => Prop(dt[i].1, "synonym")
  }

  lemma GetAddSynonym(syns: Dict<string, string>, e: (string, TermDecl), k: string)
    ensures Get(AddSynonym(syns, e), k) == if SynKey(e, k) then Prop(e.1, "synonym") else Get(syns, k)
  {
    var name := Strip(e.0);
    var s := Prop(e.1, "synonym");
    if Truthy(s) {
      var s1 := Put(syns, Lower(name), s.value);
      if k == Lower(name) { GetPutSame(syns, Lower(name), s.value); } else { GetPutOther(syns, Lower(name), s.value, k); }
      if '.' !in name {
        var r := ROOT_TERM + "." + Lower(name);
        if k == r { GetPutSame(s1, r, s.value); } else { GetPutOther(s1, r, s.value, k); }
      }
    }
  }

  /** TermParser.synonyms agrees with the reference reading on every key. */
  lemma {:induction false} SynonymsAreLast(dt: Dict<string, TermDecl>, k: string)
    ensures Get(Synonyms(dt), k) == LastSynonym(dt, k)
    decreases |dt|
  {
    if dt != [] {
      SynonymsAreLast(dt[..|dt| - 1], k);
      GetAddSynonym(Synonyms(dt[..|dt| - 1]), dt[|dt| - 1], k);
      if !SynKey(dt[|dt| - 1], k) {
        var i := LastWhere(dt[..|dt| - 1], e => SynKey(e, k));
        if i.Some? { assert dt[..|dt| - 1][i.value] == dt[i.value]; }
      }
    }
  }

  // ---------------------------------------------------------------------
  // A section term and the rename after it

  /**
   * A Root.Section term: the parameter map becomes its munged arguments,
   * the last parent the root's record name, the default value name
   * `@value`, and the section becomes the current one.
   */
  lemma InterpretSection(st: PState, t: nat)
    requires Inv(st) && t < |st.nodes|
    requires Renamed(st, t).Ok? && Classify(Renamed(st, t).value) == SectionStart
    requires Interpret(st, t).Ok?
    ensures var r := Interpret(st, t).value;
      && r.paramMap == Munge(st.nodes[t].args)
      && r.lastParent == (if t == st.root then Renamed(st, t).value.recordTerm else st.nodes[st.root].recordTerm)
      && r.defaultName == "@value"
      && r.lastSection == t
      && r.lastTermMap == st.lastTermMap
  {
    var n := Renamed(st, t).value;
    SetNodeValid(st.nodes, t, n);
    var st1 := st.(nodes := st.nodes[t := n]);
    var s := SectionStep(st1, t);
    assert Dispatch(st1, t) == Emit(s, t);
    assert Interpret(st, t) == Dispatch(st1, t);
  }

  /** After a section with arguments `args`, an integer record name `k` within them becomes that argument, lower-cased, or `k` itself when the argument is blank. */
  lemma RemapAfterSection(args: seq<string>, n: Node, k: int)
    requires PyInt(n.recordTerm) == Some(k) && 0 <= k < |args|
    ensures Remap(Munge(args), n).recordTerm == if args[k] != "" then Lower(args[k]) else NatToString(k)
    ensures Remap(Munge(args), n) == n.(recordTerm := Remap(Munge(args), n).recordTerm)
  {
    assert Munge(args)[k] == if args[k] != "" then Named(Lower(args[k])) else Index(k);
  }

  /** A record name that is not an integer is never renamed. */
  lemma RemapNonInteger(pm: seq<Param>, n: Node)
    requires PyInt(n.recordTerm).None?
    ensures Remap(pm, n) == n
  {
  }

  // ---------------------------------------------------------------------
  // Declared terms

  /** add_declared_term: a term naming a section that was never declared raises DeclarationError. */
  lemma DeclareUndeclaredSection(ns: seq<Node>, t: nat, dt: Dict<string, TermDecl>, ds: Dict<string, SectionDecl>)
    requires Valid(ns) && t < |ns| && Distinct(ds)
    requires ns[t].value.Some? && NormalizeTerm(ns[t].value.value).Ok?
    requires ArgProps(ns, t).Ok? && NonBlankProps(ArgProps(ns, t).value).Ok?
    requires var props := NonBlankProps(ArgProps(ns, t).value).value;
      Truthy(Get(props, "section")) && !Has(ds, Lower(Get(props, "section").value))
    ensures DeclareTerm(ns, t, dt, ds) == Err(DeclarationError)
  {
    var props := NonBlankProps(ArgProps(ns, t).value).value;
    var td := TermDecl(Put(Remove(props, "values"), "term", ns[t].value.value), Some([]));
    assert Prop(td, "section") == Get(props, "section") by {
      assert "section"[0] != "values"[0] && "section"[0] != "term"[0];
      GetRemove(props, "values", "section");
      GetPutOther(Remove(props, "values"), "term", ns[t].value.value, "section");
    }
    assert AddToSection(ds, td) == Err(DeclarationError);
  }

  // ---------------------------------------------------------------------
  // First-column terms: lookup and registration

  /** As written, a first-column term whose parent and record names agree (Foo.Foo) is looked up as its own parent. */
  lemma AsWrittenSelfParent(m: map<string, nat>, n: Node, t: nat)
    requires n.parentTerm == n.recordTerm
    ensures ParentAsWritten(m, n, t) == Some(t)
  {
  }

  /** Looking up first finds the earlier term of that name, or none. */
  lemma LookedUpEarlier(st: PState, t: nat)
    requires Inv(st) && t < |st.nodes|
    requires st.nodes[t].parentTerm in st.lastTermMap
    ensures ParentLookedUp(st.lastTermMap, st.nodes[t]) == Some(st.lastTermMap[st.nodes[t].parentTerm])
    ensures ParentLookedUp(st.lastTermMap, st.nodes[t]).value < |st.nodes|
  {
  }

  /** Whenever the parent name is neither the record name nor the sentinel, both orders agree. */
  lemma OrdersAgree(m: map<string, nat>, n: Node, t: nat)
    requires n.parentTerm != n.recordTerm && n.parentTerm != ELIDED_TERM
    ensures ParentAsWritten(m, n, t) == ParentLookedUp(m, n)
  {
  }

  /** FirstColumn attaches to the parent looked up after registration. */
  lemma FirstColumnParent(st: PState, t: nat)
    requires Inv(st) && t < |st.nodes| && FirstColumn(st, t).Ok?
    ensures ParentAsWritten(st.lastTermMap, st.nodes[t], t).Some?
    ensures FirstColumn(st, t).value.nodes[t].parent == ParentAsWritten(st.lastTermMap, st.nodes[t], t)
  {
  }

  /** FirstColumnIntended attaches to the parent looked up before registration. */
  lemma FirstColumnIntendedParent(st: PState, t: nat)
    requires Inv(st) && t < |st.nodes| && FirstColumnIntended(st, t).Ok?
    ensures ParentLookedUp(st.lastTermMap, st.nodes[t]).Some?
    ensures FirstColumnIntended(st, t).value.nodes[t].parent == ParentLookedUp(st.lastTermMap, st.nodes[t])
  {
  }

  /** The two orders give the same step unless the parent name is the record name or the sentinel. */
  lemma FirstColumnOrdersAgree(st: PState, t: nat)
    requires Inv(st) && t < |st.nodes|
    requires st.nodes[t].parentTerm != st.nodes[t].recordTerm && st.nodes[t].parentTerm != ELIDED_TERM
    ensures FirstColumn(st, t) == FirstColumnIntended(st, t)
  {
    OrdersAgree(st.lastTermMap, st.nodes[t], t);
  }

  /**
   * Foo.Foo after an earlier Foo: as written the term finds itself and the
   * step cannot go on; with the lookup first it becomes the earlier Foo's child.
   */
  lemma SelfParentFinding(st: PState, t: nat)
    requires Inv(st) && t < |st.nodes|
    requires st.nodes[t].parentTerm == st.nodes[t].recordTerm
    requires st.nodes[t].recordTerm in st.lastTermMap && st.lastTermMap[st.nodes[t].recordTerm] < t
    ensures FirstColumn(st, t) == Err(Unsupported)
    ensures FirstColumnIntended(st, t).Ok?
    ensures FirstColumnIntended(st, t).value.nodes[t].parent == Some(st.lastTermMap[st.nodes[t].recordTerm])
  {
    FirstColumnIntendedParent(st, t);
  }

  /** Foo.Foo with no earlier Foo: as written the term finds itself; with the lookup first it raises ParserError. */
  lemma SelfParentNoEarlier(st: PState, t: nat)
    requires Inv(st) && t < |st.nodes|
    requires st.nodes[t].parentTerm == st.nodes[t].recordTerm && st.nodes[t].recordTerm !in st.lastTermMap
    ensures ParentAsWritten(st.lastTermMap, st.nodes[t], t) == Some(t)
    ensures FirstColumn(st, t) == Err(Unsupported)
    ensures FirstColumnIntended(st, t) == Err(ParserError)
  {
    AsWrittenSelfParent(st.lastTermMap, st.nodes[t], t);
  }

  // ---------------------------------------------------------------------
  // The interpreter's branches are term_is tests

  /** A pattern `a.b` without wildcards, already stripped and lower-cased, matches exactly the terms whose join_lc it is. */
  lemma PlainPattern(n: Node, a: string, b: string)
    requires '.' !in a && '.' !in b && a != "" && Strip(a) == a && Strip(b) == b && IsLower(a) && IsLower(b)
    requires a != "*" && b != "*"
    ensures TermIs(n, a + "." + b) == Ok(JoinLc(n) == a + "." + b)
  {
    SplitPlain(a, b);
    LowerPlainPair(a, b);
    TermIsExact(n, a + "." + b);
  }

  lemma SplitPlain(a: string, b: string)
    requires '.' !in a && '.' !in b && a != "" && Strip(a) == a && Strip(b) == b && IsLower(a) && IsLower(b)
    ensures SplitTermLower(a + "." + b) == Ok((a, b)) && '.' in a + "." + b
  {
    SplitOneDot(a, b);
    LowerOfLower(a);
    LowerOfLower(b);
    assert (a + "." + b)[|a|] == '.';
  }

  lemma LowerPlainPair(a: string, b: string)
    requires IsLower(a) && IsLower(b)
    ensures Lower(a + "." + b) == a + "." + b
  {
    LowerConcat(a, ".");
    LowerConcat(a + ".", b);
    LowerOfLower(a);
    LowerOfLower(b);
  }

  /** A word of lower-case letters is plain: stripped, lower-case, without a dot. */
  lemma LettersPlain(w: string)
    requires w != [] && forall i :: 0 <= i < |w| ==> 'a' <= w[i] <= 'z'
    ensures Strip(w) == w && IsLower(w) && '.' !in w
  {
    StripPlain(w);
  }

  lemma WordsPlain()
    ensures Strip("header") == "header" && IsLower("header") && '.' !in "header"
    ensures Strip("section") == "section" && IsLower("section") && '.' !in "section"
    ensures Strip(ROOT_TERM) == ROOT_TERM && IsLower(ROOT_TERM) && '.' !in ROOT_TERM
  {
    LettersPlain("header");
    LettersPlain("section");
    LettersPlain(ROOT_TERM);
  }

  /** Classify's three special branches are the tests term_is('root.header'), term_is('root.section') and term_is('root.root'). */
  lemma ClassifyIsTermIs(n: Node)
    ensures Classify(n) == Header <==> TermIs(n, ROOT_HEADER) == Ok(true)
    ensures Classify(n) == SectionStart <==> TermIs(n, ROOT_SECTION) == Ok(true) && TermIs(n, ROOT_HEADER) == Ok(false)
    ensures Classify(n) == RootStart <==> TermIs(n, ROOT_ROOT) == Ok(true) && TermIs(n, ROOT_SECTION) == Ok(false) && TermIs(n, ROOT_HEADER) == Ok(false)
  {
    WordsPlain();
    PlainPattern(n, ROOT_TERM, "header");
    PlainPattern(n, ROOT_TERM, "section");
    PlainPattern(n, ROOT_TERM, ROOT_TERM);
  }
}
