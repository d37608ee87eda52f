// TermInterpreter of python/metatab/parser.py: it consumes the terms of a
// TermGenerator, applies synonyms, elided parents and the parameter map of
// the last Section, handles Section and Declare terms, and records
// declarations read from Declare documents.
//
// A Declare document is parsed by a second interpreter and converted to a
// dict; here that dict (or the error of reading it) is given by the
// parameter `load`, from the file name to the document. The values of that
// dict are `DVal`s, and Python's operations on them (`in`, `[...]`,
// iteration, `.lower()`) are written out with the errors they raise.
module LegacyInterp {
  import opened Wrappers
  import opened Text
  import opened ODict
  import opened LegacyTerms
  import opened LegacyDict
  import Parser

  // ---------------------------------------------------------------------
  // Python operations on converted values

  /** `for x in v`: a list gives its items, a dict its keys, a string its characters; None is a TypeError. */
  function Iterate(v: DVal): (r: Result<seq<DVal>>)
    ensures r.Err? <==> v == Str(None)
    ensures v.Lst? ==> r == Ok(v.xs)
    ensures v.Obj? ==> r.Ok? && |r.value| == |v.d|
  {
    match v
    case Lst(xs) => Ok(xs)
    case Obj(d) => Ok(seq(|d|, i requires 0 <= i < |d| => Str(Some(d[i].0))))
    case Str(s) => if s.None? then Err(TypeError) else Ok(seq(|s.value|, i requires 0 <= i < |s.value| => Str(Some([s.value[i]]))))
  }

  /** `v[k]` with a string key: a missing key is a KeyError, and anything but a dict is a TypeError. */
  function Field(v: DVal, k: string): (r: Result<DVal>)
    ensures r.Ok? <==> v.Obj? && Has(v.d, k)
    ensures r.Ok? ==> Get(v.d, k) == Some(r.value)
    ensures r.Err? ==> r.error == (if v.Obj? then KeyError else TypeError)
  {
    if !v.Obj? then Err(TypeError)
    else match Get(v.d, k)
      case None => Err(KeyError)
      case Some(x) => Ok(x)
  }

  /** A value used as a string; anything that is not a string fails. */
  function AsStr(v: DVal): (r: Result<string>)
    ensures r.Ok? <==> v.Str? && v.s.Some?
    ensures r.Ok? ==> v == Str(Some(r.value))
  {
    if v.Str? && v.s.Some? then Ok(v.s.value) else Err(TypeError)
  }

  /** A declared property read as a term attribute: a value that is not a string is taken as the empty string. */
  function AsProp(v: DVal): string
  {
    if v.Str? && v.s.Some? then v.s.value else ""
  }

  // ---------------------------------------------------------------------
  // Declarations: import_declare_doc

  /** An entry of `_sections`: its argument names and the names of its terms. */
  datatype SecDecl = SecDecl(args: seq<DVal>, terms: seq<DVal>)

  /** `_sections` and `_terms`; a term entry is the dict of its DeclareTerm. */
  datatype Decls = Decls(sections: Dict<string, SecDecl>, terms: Dict<string, Dict<string, DVal>>)

  /** The declarations after a run of updates, and the exception that stopped it. */
  datatype Partial = Partial(decls: Decls, error: Option<Exc>)

  /** Python's isinstance(k, int) for a key of the converted dict, which is always a str. */
  predicate IsIntObject(k: string) { false }

  /** The values of the entries whose key passes `keep`, in entry order. */
  function KeepKeys(d: Dict<string, DVal>, keep: string -> bool): (r: seq<DVal>)
    ensures |r| <= |d|
  {
    if d == [] then [] else (if keep(d[0].0) then [d[0].1] else []) + KeepKeys(d[1..], keep)
  }

  /** The `args` of a DeclareSection as written: the values of the keys that are ints (sorted, when there are any). */
  function ArgsAsWritten(d: Dict<string, DVal>): seq<DVal>
  {
    KeepKeys(d, IsIntObject)
  }

  /** No key of a converted dict is an int, so a declared section never gets arguments. */
  lemma {:induction false} ArgsAsWrittenEmpty(d: Dict<string, DVal>)
    ensures ArgsAsWritten(d) == []
  {
    if d != [] {
      ArgsAsWrittenEmpty(d[1..]);
    }
  }

  /** The entries whose key is a decimal integer, with that integer, sorted by it. */
  function IntKeyed(d: Dict<string, DVal>): (r: seq<(int, DVal)>)
  {
    if d == [] then []
    else
      var rest := IntKeyed(d[1..]);
      match PyInt(d[0].0)
      case Some(n) => [(n, d[0].1)] + rest
      case None => rest
  }

  /** Every pair kept comes from an entry whose key reads as that integer. */
  lemma {:induction false} IntKeyedOrigin(d: Dict<string, DVal>, x: (int, DVal))
    requires x in IntKeyed(d)
    ensures exists j :: 0 <= j < |d| && PyInt(d[j].0) == Some(x.0) && d[j].1 == x.1
  {
    var rest := IntKeyed(d[1..]);
    if x in rest {
      IntKeyedOrigin(d[1..], x);
      var j :| 0 <= j < |d[1..]| && PyInt(d[1..][j].0) == Some(x.0) && d[1..][j].1 == x.1;
      assert d[j + 1] == d[1..][j];
    }
  }

  /** Every entry whose key reads as an integer is kept. */
  lemma {:induction false} IntKeyedComplete(d: Dict<string, DVal>, j: nat)
    requires j < |d| && PyInt(d[j].0).Some?
    ensures (PyInt(d[j].0).value, d[j].1) in IntKeyed(d)
  {
    var rest := IntKeyed(d[1..]);
    var head := if PyInt(d[0].0).Some? then [(PyInt(d[0].0).value, d[0].1)] else [];
    assert IntKeyed(d) == head + rest;
    if j > 0 {
      IntKeyedComplete(d[1..], j - 1);
      assert d[1..][j - 1] == d[j];
    }
  }

  predicate SortedByInt(s: seq<(int, DVal)>)
  {
    forall i, j :: 0 <= i < j < |s| ==> s[i].0 <= s[j].0
  }

  function InsertByInt(x: (int, DVal), s: seq<(int, DVal)>): (r: seq<(int, DVal)>)
    ensures multiset(r) == multiset(s) + multiset{x}
  {
    if s == [] then [x]
    else if x.0 <= s[0].0 then [x] + s
    else
      assert s == [s[0]] + s[1..];
      [s[0]] + InsertByInt(x, s[1..])
  }

  function SortByInt(s: seq<(int, DVal)>): (r: seq<(int, DVal)>)
    ensures multiset(r) == multiset(s)
  {
    if s == [] then []
    else
      assert s == [s[0]] + s[1..];
      InsertByInt(s[0], SortByInt(s[1..]))
  }

  lemma {:induction false} InsertByIntSorted(x: (int, DVal), s: seq<(int, DVal)>)
    requires SortedByInt(s)
    ensures SortedByInt(InsertByInt(x, s))
  {
    if s != [] && x.0 > s[0].0 {
      InsertByIntSorted(x, s[1..]);
      var r := InsertByInt(x, s[1..]);
      forall i | 0 <= i < |r| ensures s[0].0 <= r[i].0 {
        assert r[i] in multiset(r);
        assert r[i] in multiset(s[1..]) + multiset{x};
        if r[i] != x {
          assert r[i] in s[1..];
        }
      }
    }
  }

  lemma {:induction false} SortByIntSorted(s: seq<(int, DVal)>)
    ensures SortedByInt(SortByInt(s))
  {
    if s != [] {
      SortByIntSorted(s[1..]);
      InsertByIntSorted(s[0], SortByInt(s[1..]));
    }
  }

  function Seconds(s: seq<(int, DVal)>): (r: seq<DVal>)
    ensures |r| == |s| && forall i :: 0 <= i < |s| ==> r[i] == s[i].1
  {
    seq(|s|, i requires 0 <= i < |s| => s[i].1)
  }

  /** The `args` of a DeclareSection as intended: the values of the integer keys, in the order of those integers. */
  function ArgsByIndex(d: Dict<string, DVal>): seq<DVal>
  {
    Seconds(SortByInt(IntKeyed(d)))
  }

  /** The intended arguments are the values of the integer keys, each once, in increasing key order. */
  lemma ArgsByIndexOrdered(d: Dict<string, DVal>)
    ensures var s := SortByInt(IntKeyed(d));
      && ArgsByIndex(d) == Seconds(s)
      && SortedByInt(s)
      && multiset(s) == multiset(IntKeyed(d))
  {
    SortByIntSorted(IntKeyed(d));
  }

  /** Each intended argument, with its index, comes from an entry whose key reads as that index. */
  lemma ArgsByIndexFromKeys(d: Dict<string, DVal>, i: nat)
    requires i < |SortByInt(IntKeyed(d))|
    ensures var x := SortByInt(IntKeyed(d))[i];
      exists j :: 0 <= j < |d| && PyInt(d[j].0) == Some(x.0) && d[j].1 == x.1
  {
    var s := SortByInt(IntKeyed(d));
    assert s[i] in multiset(IntKeyed(d));
    IntKeyedOrigin(d, s[i]);
  }

  /** Every entry whose key reads as an integer gives an intended argument. */
  lemma ArgsByIndexComplete(d: Dict<string, DVal>, j: nat)
    requires j < |d| && PyInt(d[j].0).Some?
    ensures d[j].1 in ArgsByIndex(d)
  {
    IntKeyedComplete(d, j);
    var x := (PyInt(d[j].0).value, d[j].1);
    var s := SortByInt(IntKeyed(d));
    assert x in multiset(s);
    var k :| 0 <= k < |s| && s[k] == x;
    assert ArgsByIndex(d)[k] == d[j].1;
  }

  lemma NameKeyNotInt()
    ensures PyInt("section_name") == None
  {
    StripPlain("section_name");
    assert !IsDigit("section_name"[0]);
  }

  lemma IndexKeysInt()
    ensures PyInt("0") == Some(0) && PyInt("1") == Some(1)
  {
    StripPlain("0");
    StripPlain("1");
  }

  /** The integer-keyed entries of a DeclareSection with the arguments "email" and "org". */
  lemma ContactsArgsKeyed(d: Dict<string, DVal>)
    requires d == [("section_name", Str(Some("contacts"))), ("0", Str(Some("email"))), ("1", Str(Some("org")))]
    ensures IntKeyed(d) == [(0, Str(Some("email"))), (1, Str(Some("org")))]
  {
    NameKeyNotInt();
    IndexKeysInt();
    assert IntKeyed(d) == IntKeyed(d[1..]);
    assert IntKeyed(d[1..]) == [(0, Str(Some("email")))] + IntKeyed(d[2..]);
    assert IntKeyed(d[2..]) == [(1, Str(Some("org")))] + IntKeyed(d[3..]);
  }

  /** A DeclareSection whose arguments sit under the keys "0" and "1" gets none as written, and both as intended. */
  lemma SectionArgsFinding()
    ensures var d := [("section_name", Str(Some("contacts"))), ("0", Str(Some("email"))), ("1", Str(Some("org")))];
      ArgsAsWritten(d) == [] && ArgsByIndex(d) == [Str(Some("email")), Str(Some("org"))]
  {
    var d := [("section_name", Str(Some("contacts"))), ("0", Str(Some("email"))), ("1", Str(Some("org")))];
    ArgsAsWrittenEmpty(d);
    ContactsArgsKeyed(d);
    ContactsArgsSorted(IntKeyed(d));
  }

  lemma ContactsArgsSorted(s: seq<(int, DVal)>)
    requires s == [(0, Str(Some("email"))), (1, Str(Some("org")))]
    ensures Seconds(SortByInt(s)) == [Str(Some("email")), Str(Some("org"))]
  {
    assert SortByInt(s[1..]) == s[1..];
    assert SortByInt(s) == s;
  }

  /**
   * One entry of `declaresection`: a falsy entry is skipped; otherwise its
   * items are read (only a dict has them) and it is registered under its
   * lower-cased section name, with the arguments `args` and no terms.
   */
  function SectionStepWith(ds: Decls, e: DVal, args: Dict<string, DVal> -> seq<DVal>): (p: Partial)
    ensures p.error.None? && Truthy(e) ==>
      e.Obj? && exists nm :: (Get(e.d, "section_name") == Some(Str(Some(nm)))
                              && p.decls.sections == Put(ds.sections, Lower(nm), SecDecl(args(e.d), [])))
    ensures p.error.None? ==> p.decls.terms == ds.terms
  {
    if !Truthy(e) then Partial(ds, None)
    else if !e.Obj? then Partial(ds, Some(AttributeError))      // e.items()
    else match Field(e, "section_name")
      case Err(x) => Partial(ds, Some(x))
      case Ok(nv) =>
        if !(nv.Str? && nv.s.Some?) then Partial(ds, Some(AttributeError))   // .lower()
        else Partial(ds.(sections := Put(ds.sections, Lower(nv.s.value), SecDecl(args(e.d), []))), None)
  }

  /**
   * One entry of `declareterm`, as written: the entry is stored under its
   * joined lower-cased term name; then, when it names a section, that
   * section is created if the name as written is not a key (keys are
   * lower-cased) and the term name is appended to the section's terms if
   * the section name as written is not among them.
   */
  function TermStepAsWritten(ds: Decls, e: DVal): (p: Partial)
  {
    TermStepWith(ds, e, false)
  }

  /**
   * The same with the test each check evidently meant: the lower-cased
   * section name for the existing section, and the term name for the term
   * already listed.
   */
  function TermStep(ds: Decls, e: DVal): (p: Partial)
  {
    TermStepWith(ds, e, true)
  }

  /** The term key a DeclareTerm entry is stored under. */
  function TermKey(name: string): (r: Result<string>)
    ensures r.Ok? <==> SplitTermLower(name).Ok?
    ensures r.Ok? ==> r.value == SplitTermLower(name).value.0 + "." + SplitTermLower(name).value.1
  {
    var pr :- SplitTermLower(name);
    Ok(pr.0 + "." + pr.1)
  }

  function TermStepWith(ds: Decls, e: DVal, fixed: bool): (p: Partial)
  {
    match Field(e, "term_name")
    case Err(x) => Partial(ds, Some(x))
    case Ok(nameV) =>
      match AsStr(nameV)
      case Err(x) => Partial(ds, Some(x))
      case Ok(name) =>
        match TermKey(name)
        case Err(x) => Partial(ds, Some(x))
        case Ok(key) =>
          var ds1 := ds.(terms := Put(ds.terms, key, e.d));
          var sec := Get(e.d, "section");
          if sec.None? || !Truthy(sec.value) then Partial(ds1, None)
          else if !sec.value.Str? then Partial(ds1, Some(TypeError))          // an unhashable dict or list key
          else
            var s := sec.value.s.value;
            var exists_ := if fixed then Has(ds1.sections, Lower(s)) else Has(ds1.sections, s);
            var secs := if exists_ then ds1.sections else Put(ds1.sections, Lower(s), SecDecl([], []));
            match Get(secs, Lower(s))
            case None => Partial(ds1.(sections := secs), Some(KeyError))
            case Some(sd) =>
              var listed := if fixed then nameV in sd.terms else sec.value in sd.terms;
              var sd1 := if listed then sd else sd.(terms := sd.terms + [nameV]);
              Partial(ds1.(sections := Put(secs, Lower(s), sd1)), None)
  }

  /**
   * One entry of `declarevalueset`: every declared term whose `valueset`
   * equals the entry's `name` (None when it has none) gets the entry's
   * `value` in its place. The entry is read (`e.get`) only at a term that
   * has a `valueset`, so an entry that is not a dict raises AttributeError
   * there, and passes unnoticed when no term has one.
   */
  function ValueSetStep(ds: Decls, e: DVal): (p: Partial)
    ensures p.error.None? ==> p.decls.sections == ds.sections && Keys(p.decls.terms) == Keys(ds.terms)
    ensures !e.Obj? ==> p.decls == ds
    ensures !e.Obj? ==> (p.error.None? <==> forall j :: 0 <= j < |ds.terms| ==> !Has(ds.terms[j].1, "valueset"))
  {
    match SetValueSets(ds.terms, e, 0)
    case Err(x) => Partial(ds, Some(x))
    case Ok(ts) => Partial(ds.(terms := ts), None)
  }

  /** The name a valueset entry is matched by: `e.get('name', None)`. */
  function ValueSetName(e: DVal): DVal
    requires e.Obj?
  {
    GetOr(e.d, "name", Str(None))
  }

  /** The valueset replacement over the term entries from index i on. */
  function SetValueSets(ts: Dict<string, Dict<string, DVal>>, e: DVal, i: nat): (r: Result<Dict<string, Dict<string, DVal>>>)
    requires i <= |ts|
    ensures r.Ok? ==> Keys(r.value) == Keys(ts)
    ensures r.Ok? ==> forall j :: 0 <= j < |ts| ==>
      if i <= j && e.Obj? && Get(ts[j].1, "valueset") == Some(ValueSetName(e))
      then Field(e, "value").Ok? && r.value[j].1 == Put(ts[j].1, "valueset", Field(e, "value").value)
      else r.value[j].1 == ts[j].1
    ensures e.Obj? && r.Err? ==> r == Err(KeyError)
    ensures !e.Obj? ==> (r.Ok? <==> forall j :: i <= j < |ts| ==> !Has(ts[j].1, "valueset"))
    ensures !e.Obj? && r.Err? ==> r == Err(AttributeError)
    decreases |ts| - i
  {
    if i == |ts| then Ok(ts)
    else
      var v := ts[i].1;
      match Get(v, "valueset")
      case None => SetValueSets(ts, e, i + 1)
      case Some(vs) =>
        if !e.Obj? then Err(AttributeError)                 // e.get
        else if vs != ValueSetName(e) then SetValueSets(ts, e, i + 1)
        else
          match Field(e, "value")
          case Err(x) => Err(x)
          case Ok(val) => SetValueSets(ts[i := (ts[i].0, Put(v, "valueset", val))], e, i + 1)
  }

  /** A run of entry updates; the first exception stops it, keeping what was done before it. */
  function Steps(ds: Decls, es: seq<DVal>, step: (Decls, DVal) -> Partial): (p: Partial)
    decreases |es|
  {
    if es == [] then Partial(ds, None)
    else
      var p1 := step(ds, es[0]);
      if p1.error.Some? then p1 else Steps(p1.decls, es[1..], step)
  }

  /** `if key in d: for e in d[key]: step(e)`. */
  function Block(ds: Decls, d: DVal, key: string, step: (Decls, DVal) -> Partial): (p: Partial)
    requires d.Obj?
  {
    if !Has(d.d, key) then Partial(ds, None)
    else match Iterate(Get(d.d, key).value)
      case Err(x) => Partial(ds, Some(x))
      case Ok(es) => Steps(ds, es, step)
  }

  /** import_declare_doc(d), with the given DeclareSection arguments and DeclareTerm step; `in` on a document that is not a dict is a TypeError. */
  function ImportWith(ds: Decls, d: DVal, args: Dict<string, DVal> -> seq<DVal>, termStep: (Decls, DVal) -> Partial): (p: Partial)
  {
    if !d.Obj? then Partial(ds, Some(TypeError))
    else
      var p1 := Block(ds, d, "declaresection", (ds, e) => SectionStepWith(ds, e, args));
      if p1.error.Some? then p1
      else
        var p2 := Block(p1.decls, d, "declareterm", termStep);
        if p2.error.Some? then p2
        else Block(p2.decls, d, "declarevalueset", ValueSetStep)
  }

  /** import_declare_doc as written: no DeclareSection gets arguments, and the section tests of the DeclareTerm step are the ones the code makes. */
  function ImportDeclareDoc(ds: Decls, d: DVal): Partial
  {
    ImportWith(ds, d, ArgsAsWritten, TermStepAsWritten)
  }

  /** import_declare_doc with the arguments ordered by their integer keys and the section tests it evidently meant. */
  function ImportDeclareDocIntended(ds: Decls, d: DVal): Partial
  {
    ImportWith(ds, d, ArgsByIndex, TermStep)
  }

  // ----- Properties of the DeclareTerm step

  /** A DeclareTerm with a string name that splits is stored under its key. */
  lemma TermStored(ds: Decls, e: DVal, fixed: bool)
    requires Field(e, "term_name").Ok? && AsStr(Field(e, "term_name").value).Ok?
    requires TermKey(AsStr(Field(e, "term_name").value).value).Ok?
    ensures var key := TermKey(AsStr(Field(e, "term_name").value).value).value;
      Get(TermStepWith(ds, e, fixed).decls.terms, key) == Some(e.d)
  {
    var key := TermKey(AsStr(Field(e, "term_name").value).value).value;
    GetPutSame(ds.terms, key, e.d);
  }

  /** With the corrected tests, a DeclareTerm that names a section is listed in it, once. */
  lemma TermListed(ds: Decls, e: DVal)
    requires Field(e, "term_name").Ok? && AsStr(Field(e, "term_name").value).Ok?
    requires TermKey(AsStr(Field(e, "term_name").value).value).Ok?
    requires Get(e.d, "section").Some? && Truthy(Get(e.d, "section").value) && Get(e.d, "section").value.Str?
    ensures var p := TermStep(ds, e); var s := Get(e.d, "section").value.s.value;
      && p.error.None?
      && Get(p.decls.sections, Lower(s)).Some?
      && Field(e, "term_name").value in Get(p.decls.sections, Lower(s)).value.terms
      && (Get(ds.sections, Lower(s)).Some? ==>
            var old_ := Get(ds.sections, Lower(s)).value.terms;
            Get(p.decls.sections, Lower(s)).value.terms ==
              if Field(e, "term_name").value in old_ then old_ else old_ + [Field(e, "term_name").value])
  {
    var s := Get(e.d, "section").value.s.value;
    var nameV := Field(e, "term_name").value;
    var key := TermKey(AsStr(nameV).value).value;
    var secs1 := Put(ds.terms, key, e.d);
    var had := Has(ds.sections, Lower(s));
    var secs := if had then ds.sections else Put(ds.sections, Lower(s), SecDecl([], []));
    GetPutSame(ds.sections, Lower(s), SecDecl([], []));
    var sd := Get(secs, Lower(s)).value;
    var sd1 := if nameV in sd.terms then sd else sd.(terms := sd.terms + [nameV]);
    GetPutSame(secs, Lower(s), sd1);
  }

  /** A later entry for another section leaves a section's terms alone, in the corrected step. */
  lemma TermOtherSection(ds: Decls, e: DVal, other: string)
    requires TermStep(ds, e).error.None?
    requires forall s :: Get(e.d, "section") == Some(Str(Some(s))) ==> Lower(s) != other
    ensures Get(TermStep(ds, e).decls.sections, other) == Get(ds.sections, other)
  {
    var nameV := Field(e, "term_name").value;
    var sec := Get(e.d, "section");
    if sec.Some? && Truthy(sec.value) {
      var s := sec.value.s.value;
      assert Lower(s) != other;
      var secs := if Has(ds.sections, Lower(s)) then ds.sections else Put(ds.sections, Lower(s), SecDecl([], []));
      GetPutOther(ds.sections, Lower(s), SecDecl([], []), other);
      var sd := Get(secs, Lower(s)).value;
      var sd1 := if nameV in sd.terms then sd else sd.(terms := sd.terms + [nameV]);
      GetPutOther(secs, Lower(s), sd1, other);
    }
  }

  /** A DeclareTerm entry naming a term (with a usable name) and a non-empty section. */
  predicate FiledTerm(e: DVal, nameV: DVal, s: string)
  {
    && e.Obj? && Get(e.d, "term_name") == Some(nameV) && AsStr(nameV).Ok? && TermKey(AsStr(nameV).value).Ok?
    && Get(e.d, "section") == Some(Str(Some(s))) && s != ""
  }

  /**
   * The effect of one filed DeclareTerm on `_sections`, when the section's own
   * spelling is not a key: as written the section is re-created empty and gets
   * the name; corrected, the existing section gets the name unless listed.
   * No other section changes.
   */
  lemma TermStepFiled(ds: Decls, e: DVal, fixed: bool, nameV: DVal, s: string)
    requires FiledTerm(e, nameV, s) && !Has(ds.sections, s)
    ensures var p := TermStepWith(ds, e, fixed);
      && p.error.None?
      && Get(p.decls.sections, Lower(s)) == Some(
           var sd := if fixed then GetOr(ds.sections, Lower(s), SecDecl([], [])) else SecDecl([], []);
           if fixed && nameV in sd.terms then sd else sd.(terms := sd.terms + [nameV]))
      && forall k :: k != Lower(s) ==> Get(p.decls.sections, k) == Get(ds.sections, k)
  {
    var c := SecDecl([], []);
    var found := if fixed then Has(ds.sections, Lower(s)) else false;
    var secs := if found then ds.sections else Put(ds.sections, Lower(s), c);
    GetPutSame(ds.sections, Lower(s), c);
    assert Get(secs, Lower(s)) == Some(if fixed then GetOr(ds.sections, Lower(s), c) else c);
    var sd := Get(secs, Lower(s)).value;
    var sd1 := if fixed && nameV in sd.terms then sd else sd.(terms := sd.terms + [nameV]);
    GetPutSame(secs, Lower(s), sd1);
    assert Field(e, "term_name") == Ok(nameV);
    assert Truthy(Str(Some(s)));
    var ds1 := ds.(terms := Put(ds.terms, TermKey(AsStr(nameV).value).value, e.d));
    assert TermStepWith(ds, e, fixed) == Partial(ds1.(sections := Put(secs, Lower(s), sd1)), None);
    forall k | k != Lower(s)
      ensures Get(Put(secs, Lower(s), sd1), k) == Get(ds.sections, k)
    {
      GetPutOther(secs, Lower(s), sd1, k);
      GetPutOther(ds.sections, Lower(s), c, k);
    }
  }

  /**
   * Two DeclareTerms filed under a section spelt with a capital (such as
   * "Contacts"), in declarations that have no such section yet: as written
   * the section is re-created for the second term, because its name is
   * looked up without lower-casing, and only the second term stays listed;
   * corrected, both are listed in order.
   */
  lemma SectionTermsFinding(ds: Decls, e1: DVal, e2: DVal, n1: DVal, n2: DVal, s: string)
    requires FiledTerm(e1, n1, s) && FiledTerm(e2, n2, s) && n1 != n2
    requires Lower(s) != s && !Has(ds.sections, s) && !Has(ds.sections, Lower(s))
    ensures Get(Steps(ds, [e1, e2], TermStepAsWritten).decls.sections, Lower(s)) == Some(SecDecl([], [n2]))
    ensures Get(Steps(ds, [e1, e2], TermStep).decls.sections, Lower(s)) == Some(SecDecl([], [n1, n2]))
  {
    TermsTwice(ds, e1, e2, n1, n2, s, false);
    StepsPair(ds, e1, e2, TermStepAsWritten);
    TermsTwice(ds, e1, e2, n1, n2, s, true);
    StepsPair(ds, e1, e2, TermStep);
  }

  /** Both DeclareTerms of the finding, one step after the other. */
  lemma TermsTwice(ds: Decls, e1: DVal, e2: DVal, n1: DVal, n2: DVal, s: string, fixed: bool)
    requires FiledTerm(e1, n1, s) && FiledTerm(e2, n2, s) && n1 != n2
    requires Lower(s) != s && !Has(ds.sections, s) && !Has(ds.sections, Lower(s))
    ensures TermStepWith(ds, e1, fixed).error.None?
    ensures Get(TermStepWith(TermStepWith(ds, e1, fixed).decls, e2, fixed).decls.sections, Lower(s))
         == Some(SecDecl([], if fixed then [n1, n2] else [n2]))
  {
    var c := SecDecl([], []);
    assert GetOr(ds.sections, Lower(s), c) == c;
    TermStepFiled(ds, e1, fixed, n1, s);
    var d1 := TermStepWith(ds, e1, fixed).decls;
    var sd := if fixed then GetOr(ds.sections, Lower(s), c) else c;
    assert sd == c;
    assert !(fixed && n1 in sd.terms);
    assert sd.(terms := sd.terms + [n1]) == SecDecl([], [n1]);
    assert Get(d1.sections, s) == None;
    assert Get(d1.sections, Lower(s)) == Some(SecDecl([], [n1]));
    assert GetOr(d1.sections, Lower(s), c) == SecDecl([], [n1]);
    var sd2 := if fixed then GetOr(d1.sections, Lower(s), c) else c;
    assert sd2 == SecDecl([], if fixed then [n1] else []);
    assert !(fixed && n2 in sd2.terms);
    assert sd2.(terms := sd2.terms + [n2]) == SecDecl([], if fixed then [n1, n2] else [n2]);
    TermStepFiled(d1, e2, fixed, n2, s);
  }

  /** Two entries run one after the other when the first raises nothing. */
  lemma StepsPair(ds: Decls, e1: DVal, e2: DVal, step: (Decls, DVal) -> Partial)
    requires step(ds, e1).error.None?
    ensures Steps(ds, [e1, e2], step) == step(step(ds, e1).decls, e2)
  {
    var es := [e1, e2];
    assert es[1..] == [e2];
    var p2 := step(step(ds, e1).decls, e2);
    assert Steps(step(ds, e1).decls, [e2], step) == (if p2.error.Some? then p2 else Steps(p2.decls, [], step));
  }

  // ----- As written, no declared section has arguments

  /** Every section of the declarations has no arguments. */
  ghost predicate NoArgs(ds: Decls)
  {
    forall i :: 0 <= i < |ds.sections| ==> ds.sections[i].1.args == []
  }

  lemma NoArgsPut(ds: Decls, k: string, sd: SecDecl)
    requires NoArgs(ds) && sd.args == []
    ensures NoArgs(ds.(sections := Put(ds.sections, k, sd)))
  {
    var r := Put(ds.sections, k, sd);
    forall i | 0 <= i < |r| ensures r[i].1.args == [] {
      if i < |ds.sections| {
        assert r[i] == (if ds.sections[i].0 == k then (k, sd) else ds.sections[i]);
      } else {
        assert r == ds.sections + [(k, sd)];
      }
    }
  }

  lemma NoArgsGet(ds: Decls, k: string)
    requires NoArgs(ds) && Get(ds.sections, k).Some?
    ensures Get(ds.sections, k).value.args == []
  {
    var i :| 0 <= i < |ds.sections| && ds.sections[i] == (k, Get(ds.sections, k).value);
  }

  /** A DeclareSection entry as written registers its section with no arguments. */
  lemma SectionStepNoArgs(ds: Decls, e: DVal)
    requires NoArgs(ds)
    ensures NoArgs(SectionStepWith(ds, e, ArgsAsWritten).decls)
  {
    if Truthy(e) && e.Obj? && Field(e, "section_name").Ok? {
      var nv := Field(e, "section_name").value;
      if nv.Str? && nv.s.Some? {
        ArgsAsWrittenEmpty(e.d);
        NoArgsPut(ds, Lower(nv.s.value), SecDecl(ArgsAsWritten(e.d), []));
      }
    }
  }

  /** A DeclareTerm entry creates a section only with no arguments, and keeps the arguments of the one it extends. */
  lemma TermStepNoArgs(ds: Decls, e: DVal, fixed: bool)
    requires NoArgs(ds)
    ensures NoArgs(TermStepWith(ds, e, fixed).decls)
  {
    var p := TermStepWith(ds, e, fixed);
    if Field(e, "term_name").Ok? && AsStr(Field(e, "term_name").value).Ok? && TermKey(AsStr(Field(e, "term_name").value).value).Ok? {
      var nameV := Field(e, "term_name").value;
      var ds1 := ds.(terms := Put(ds.terms, TermKey(AsStr(nameV).value).value, e.d));
      assert NoArgs(ds1);
      var sec := Get(e.d, "section");
      if sec.Some? && Truthy(sec.value) && sec.value.Str? {
        var sn := sec.value.s.value;
        var exists_ := if fixed then Has(ds1.sections, Lower(sn)) else Has(ds1.sections, sn);
        var secs := if exists_ then ds1.sections else Put(ds1.sections, Lower(sn), SecDecl([], []));
        var ds2 := ds1.(sections := secs);
        if !exists_ {
          NoArgsPut(ds1, Lower(sn), SecDecl([], []));
        }
        assert NoArgs(ds2);
        if Get(secs, Lower(sn)).Some? {
          var sd := Get(secs, Lower(sn)).value;
          NoArgsGet(ds2, Lower(sn));
          var listed := if fixed then nameV in sd.terms else sec.value in sd.terms;
          var sd1 := if listed then sd else sd.(terms := sd.terms + [nameV]);
          NoArgsPut(ds2, Lower(sn), sd1);
          assert p.decls == ds2.(sections := Put(secs, Lower(sn), sd1));
        }
      }
    }
  }

  /** The valueset step leaves the sections alone. */
  lemma ValueSetNoArgs(ds: Decls, e: DVal)
    requires NoArgs(ds)
    ensures NoArgs(ValueSetStep(ds, e).decls)
  {
  }

  /** A run of steps that each keep sections without arguments keeps them so. */
  lemma {:induction false} StepsNoArgs(ds: Decls, es: seq<DVal>, step: (Decls, DVal) -> Partial)
    requires NoArgs(ds)
    requires forall d, e :: NoArgs(d) ==> NoArgs(step(d, e).decls)
    ensures NoArgs(Steps(ds, es, step).decls)
    decreases |es|
  {
    if es != [] {
      var p1 := step(ds, es[0]);
      if p1.error.None? {
        StepsNoArgs(p1.decls, es[1..], step);
      }
    }
  }

  lemma BlockNoArgs(ds: Decls, d: DVal, key: string, step: (Decls, DVal) -> Partial)
    requires d.Obj? && NoArgs(ds)
    requires forall d, e :: NoArgs(d) ==> NoArgs(step(d, e).decls)
    ensures NoArgs(Block(ds, d, key, step).decls)
  {
    if Has(d.d, key) && Iterate(Get(d.d, key).value).Ok? {
      StepsNoArgs(ds, Iterate(Get(d.d, key).value).value, step);
    }
  }

  /**
   * import_declare_doc as written never gives a section arguments: starting
   * from declarations whose sections have none, every section after the
   * import has none, whatever the document's DeclareSection entries hold.
   */
  lemma ImportNoArgs(ds: Decls, d: DVal)
    requires NoArgs(ds)
    ensures NoArgs(ImportDeclareDoc(ds, d).decls)
  {
    if d.Obj? {
      var ss := (ds, e) => SectionStepWith(ds, e, ArgsAsWritten);
      forall d', e | NoArgs(d') ensures NoArgs(ss(d', e).decls) {
        SectionStepNoArgs(d', e);
      }
      BlockNoArgs(ds, d, "declaresection", ss);
      var p1 := Block(ds, d, "declaresection", ss);
      if p1.error.None? {
        forall d', e | NoArgs(d') ensures NoArgs(TermStepAsWritten(d', e).decls) {
          TermStepNoArgs(d', e, false);
        }
        BlockNoArgs(p1.decls, d, "declareterm", TermStepAsWritten);
        var p2 := Block(p1.decls, d, "declareterm", TermStepAsWritten);
        if p2.error.None? {
          forall d', e | NoArgs(d') ensures NoArgs(ValueSetStep(d', e).decls) {
            ValueSetNoArgs(d', e);
          }
          BlockNoArgs(p2.decls, d, "declarevalueset", ValueSetStep);
        }
      }
    }
  }

  /** A plain name is stored under NO_TERM. */
  lemma NoDotKey(name: string)
    requires '.' !in name && IsLower(name) && Strip(name) == name
    ensures TermKey(name) == Ok(NO_TERM + "." + name)
  {
    LowerOfLower(name);
    assert Lower(NO_TERM) == NO_TERM;
  }

  // ---------------------------------------------------------------------
  // The interpreter

  /** A term to hand on, or none when a special term is removed from the stream. */
  datatype Emitted = Emitted(term: Option<Term>)

  /** The interpreter's state: `last_parent_term`, `_param_map`, the declarations and `errors`. */
  datatype IState = IState(lastParent: string, paramMap: seq<Parser.Param>, decls: Decls, errors: seq<(Exc, Term)>)

  /** The synonym declared for a term name, if any: `self.synonyms[name]`. */
  function Synonym(ts: Dict<string, Dict<string, DVal>>, name: string): (r: Option<DVal>)
    ensures r.Some? ==> exists v :: Get(ts, name) == Some(v) && Get(v, "synonym") == r
  {
    match Get(ts, name)
    case None => None
    case Some(v) => Get(v, "synonym")
  }

  /** The synonyms property: each declared term that has a synonym, with it, in declaration order. */
  function SynonymsOf(ts: Dict<string, Dict<string, DVal>>): (r: Dict<string, DVal>)
    ensures |r| <= |ts|
  {
    if ts == [] then []
    else (if Has(ts[0].1, "synonym") then [(ts[0].0, Get(ts[0].1, "synonym").value)] else []) + SynonymsOf(ts[1..])
  }

  /** The synonyms property finds the synonym of a name exactly when the declared term has one. */
  lemma {:induction false} SynonymsAgree(ts: Dict<string, Dict<string, DVal>>, k: string)
    requires Distinct(ts)
    ensures Get(SynonymsOf(ts), k) == Synonym(ts, k)
  {
    if ts != [] {
      SynonymsAgree(ts[1..], k);
      var head := if Has(ts[0].1, "synonym") then [(ts[0].0, Get(ts[0].1, "synonym").value)] else [];
      var rest := SynonymsOf(ts[1..]);
      if ts[0].0 == k {
        assert !Has(ts[1..], k) by {
          forall i | 0 <= i < |ts[1..]| ensures ts[1..][i].0 != k {
            assert ts[1..][i] == ts[i + 1];
          }
        }
        if head == [] {
          assert SynonymsOf(ts) == rest;
        } else {
          assert (head + rest)[0] == head[0];
        }
      } else {
        if head != [] {
          assert (head + rest)[1..] == rest;
        } else {
          assert SynonymsOf(ts) == rest;
        }
      }
    }
  }

  /** `nt.parent_term, nt.record_term` after the synonym for the term's name, if there is one. */
  function Synonymize(ts: Dict<string, Dict<string, DVal>>, t: Term): (r: Result<(string, string)>)
    ensures Synonym(ts, t.parentTerm + "." + t.recordTerm).None? ==> r == Ok((t.parentTerm, t.recordTerm))
  {
    match Synonym(ts, t.parentTerm + "." + t.recordTerm)
    case None => Ok((t.parentTerm, t.recordTerm))
    case Some(sv) =>
      var s :- AsStr(sv);
      SplitTermLower(s)
  }

  /** The elided-parent rule: an elided parent becomes the last parent, and any other term that is not an argument child becomes the last parent. */
  function Elide(last: string, parent: string, record: string, isArgChild: bool): (r: (string, string))
    ensures parent == ELIDED_TERM && last != "" ==> r == (last, last)
    ensures !(parent == ELIDED_TERM && last != "") ==> r.0 == parent && r.1 == (if isArgChild then last else record)
  {
    if parent == ELIDED_TERM && last != "" then (last, last)
    else if !isArgChild then (parent, record)
    else (parent, last)
  }

  /** The record name after the parameter map: an integer name that indexes the map (from the end when negative) is replaced. */
  function ParamRecord(pm: seq<Parser.Param>, original: string, record: string): (r: string)
    ensures PyInt(original).None? ==> r == record
    ensures PyInt(original).Some? && 0 <= PyInt(original).value < |pm| ==> r == Parser.ParamStr(pm[PyInt(original).value])
  {
    match PyInt(original)
    case None => record
    case Some(k) =>
      match Parser.PyIndex(pm, k)
      case None => record
      case Some(p) => Parser.ParamStr(p)
  }

  /**
   * `handle_declare(t)`: the document is the value with slashes stripped,
   * beside the term's file unless it starts with 'http'; a read that fails
   * with an IncludeError is recorded in `errors`, any other failure raises.
   */
  function HandleDeclare(st: IState, t: Term, load: string -> Result<DVal>): (r: (IState, Option<Exc>))
    ensures r.1.None? ==> r.0.lastParent == st.lastParent && r.0.paramMap == st.paramMap
    ensures t.value.Some? && (StartsWith(t.value.value, "http") || t.fileName.Some?) ==>
      var fn := DeclarePath(t);
      && (load(fn) == Err(IncludeError) ==> r == (st.(errors := st.errors + [(IncludeError, t)]), None))
      && (load(fn).Ok? ==> r.0.decls == ImportDeclareDoc(st.decls, load(fn).value).decls && r.1 == ImportDeclareDoc(st.decls, load(fn).value).error)
  {
    if t.value.None? then (st, Some(AttributeError))               // None.startswith
    else if !StartsWith(t.value.value, "http") && t.fileName.None? then (st, Some(TypeError))   // dirname(None)
    else
      match load(DeclarePath(t))
      case Err(x) => if x == IncludeError then (st.(errors := st.errors + [(IncludeError, t)]), None) else (st, Some(x))
      case Ok(d) =>
        var p := ImportDeclareDoc(st.decls, d);
        (st.(decls := p.decls), p.error)
  }

  function DeclarePath(t: Term): string
    requires t.value.Some? && (StartsWith(t.value.value, "http") || t.fileName.Some?)
  {
    var v := t.value.value;
    if StartsWith(v, "http") then StripChar(v, '/') else PathJoin(Dirname(t.fileName.value), StripChar(v, '/'))
  }

  /** The name of the handler a term calls: `handle_` + its record name. */
  predicate IsSpecial(t: Term)
  {
    Lower(t.recordTerm) == "section" || Lower(t.recordTerm) == "declare"
  }

  /**
   * One term of __iter__: the synonym, the elided parent, the parameter
   * map, the handler of a special term (which is then dropped when
   * `removeSpecial`), and the declared child property type, term value
   * name and validity.
   */
  function Step(removeSpecial: bool, st: IState, t: Term, load: string -> Result<DVal>): (r: (IState, Emitted, Option<Exc>))
    ensures r.2.None? && !IsSpecial(t) ==> r.1.term.Some? && r.0.paramMap == st.paramMap && r.0.decls == st.decls
    ensures r.2.None? && IsSpecial(t) ==> (r.1.term.None? <==> removeSpecial)
    ensures r.2.None? && Lower(t.recordTerm) == "section" ==> r.0.paramMap == Parser.Munge(t.args)
  {
    match Synonymize(st.decls.terms, t)
    case Err(x) => (st, Emitted(None), Some(x))
    case Ok(pr) =>
      var el := Elide(st.lastParent, pr.0, pr.1, t.isArgChild);
      var parent := el.0;
      var last := if pr.0 == ELIDED_TERM && st.lastParent != "" then st.lastParent else el.1;
      var record := ParamRecord(st.paramMap, t.recordTerm, pr.1);
      var st1 := st.(lastParent := last);
      var h := if Lower(t.recordTerm) == "section" then (st1.(paramMap := Parser.Munge(t.args)), None)
               else if Lower(t.recordTerm) == "declare" then HandleDeclare(st1, t, load)
               else (st1, None);
      if h.1.Some? then (h.0, Emitted(None), h.1)
      else if IsSpecial(t) && removeSpecial then (h.0, Emitted(None), None)
      else
        var decl := Get(h.0.decls.terms, parent + "." + record);
        var cpt := if decl.Some? && Has(decl.value, "childpropertytype") then AsProp(Get(decl.value, "childpropertytype").value) else "any";
        var tvn := if decl.Some? && Has(decl.value, "termvaluename") then AsProp(Get(decl.value, "termvaluename").value) else "@value";
        var valid := Has(h.0.decls.terms, Lower(parent) + "." + Lower(record));
        var nt := t.(parentTerm := parent, recordTerm := record, childPropertyType := cpt, termValueName := tvn, valid := Some(valid));
        (h.0, Emitted(Some(nt)), None)
  }

  /** The elided-parent rule on the yielded term: an elided parent is replaced by the last parent name. */
  lemma StepElided(removeSpecial: bool, st: IState, t: Term, load: string -> Result<DVal>)
    requires Synonym(st.decls.terms, t.parentTerm + "." + t.recordTerm).None?
    requires t.parentTerm == ELIDED_TERM && st.lastParent != "" && !IsSpecial(t)
    requires Step(removeSpecial, st, t, load).2.None?
    ensures Step(removeSpecial, st, t, load).1.term.value.parentTerm == st.lastParent
    ensures Step(removeSpecial, st, t, load).0.lastParent == st.lastParent
  {
  }

  /** A top-level term that is not an argument child becomes the parent of the elided terms after it. */
  lemma StepSetsLastParent(removeSpecial: bool, st: IState, t: Term, load: string -> Result<DVal>)
    requires Synonym(st.decls.terms, t.parentTerm + "." + t.recordTerm).None?
    requires t.parentTerm != ELIDED_TERM && !t.isArgChild
    requires Step(removeSpecial, st, t, load).2.None?
    ensures Step(removeSpecial, st, t, load).0.lastParent == t.recordTerm
  {
    if Lower(t.recordTerm) == "declare" {
      var st1 := st.(lastParent := t.recordTerm);
      assert HandleDeclare(st1, t, load).0.lastParent == t.recordTerm;
    }
  }

  /** An integer record name within the parameter map is replaced by the map's entry. */
  lemma StepRemaps(removeSpecial: bool, st: IState, t: Term, load: string -> Result<DVal>, k: nat)
    requires Synonym(st.decls.terms, t.parentTerm + "." + t.recordTerm).None?
    requires PyInt(t.recordTerm) == Some(k) && k < |st.paramMap|
    requires !IsSpecial(t) && Step(removeSpecial, st, t, load).2.None?
    ensures Step(removeSpecial, st, t, load).1.term.value.recordTerm == Parser.ParamStr(st.paramMap[k])
  {
  }

  /** The result of running the interpreter over a generator's output. */
  datatype Run = Run(st: IState, out: seq<Term>, error: Option<Exc>)

  /** __iter__ over the terms `ts` and then the generator's own exception. */
  function RunAll(removeSpecial: bool, st: IState, ts: seq<Term>, genError: Option<Exc>, load: string -> Result<DVal>): (r: Run)
    ensures r.error.None? ==> genError.None?
    decreases |ts|
  {
    if ts == [] then Run(st, [], genError)
    else
      var s := Step(removeSpecial, st, ts[0], load);
      if s.2.Some? then Run(s.0, [], s.2)
      else
        var rest := RunAll(removeSpecial, s.0, ts[1..], genError, load);
        Run(rest.st, (if s.1.term.Some? then [s.1.term.value] else []) + rest.out, rest.error)
  }

  /** Without synonyms, special terms or declarations, the interpreter hands on one term for each term. */
  lemma {:induction false} RunCounts(removeSpecial: bool, st: IState, ts: seq<Term>, load: string -> Result<DVal>)
    requires forall i :: 0 <= i < |ts| ==> !IsSpecial(ts[i])
    requires RunAll(removeSpecial, st, ts, None, load).error.None?
    ensures |RunAll(removeSpecial, st, ts, None, load).out| == |ts|
    decreases |ts|
  {
    if ts != [] {
      RunCounts(removeSpecial, Step(removeSpecial, st, ts[0], load).0, ts[1..], load);
    }
  }

  /** With `removeSpecial`, no Section or Declare term is handed on. */
  lemma {:induction false} RunRemovesSpecial(st: IState, ts: seq<Term>, genError: Option<Exc>, load: string -> Result<DVal>)
    ensures forall u :: u in RunAll(true, st, ts, genError, load).out ==> exists t :: t in ts && !IsSpecial(t) && u.row == t.row && u.col == t.col
    decreases |ts|
  {
    if ts != [] {
      var s := Step(true, st, ts[0], load);
      if s.2.None? {
        RunRemovesSpecial(s.0, ts[1..], genError, load);
        var rest := RunAll(true, s.0, ts[1..], genError, load);
        forall u | u in RunAll(true, st, ts, genError, load).out
          ensures exists t :: t in ts && !IsSpecial(t) && u.row == t.row && u.col == t.col
        {
          if u in rest.out {
            var t :| t in ts[1..] && !IsSpecial(t) && u.row == t.row && u.col == t.col;
          } else {
            assert u == s.1.term.value && ts[0] in ts;
          }
        }
      }
    }
  }

  // ---------------------------------------------------------------------
  // link_terms and as_dict over the interpreter

  /** Interpreting and linking together, term by term, as link_terms does while it iterates. */
  function Drive(removeSpecial: bool, st: IState, l: Links, ts: seq<Term>, genError: Option<Exc>, load: string -> Result<DVal>): (r: (IState, Result<Links>))
    requires LinksOk(l)
    ensures r.1.Ok? ==> LinksOk(r.1.value)
    decreases |ts|
  {
    if ts == [] then (st, if genError.Some? then Err(genError.value) else Ok(l))
    else
      var s := Step(removeSpecial, st, ts[0], load);
      if s.2.Some? then (s.0, Err(s.2.value))
      else if s.1.term.None? then Drive(removeSpecial, s.0, l, ts[1..], genError, load)
      else match LinkStep(l, s.1.term.value)
        case Err(x) => (s.0, Err(x))
        case Ok(l1) => Drive(removeSpecial, s.0, l1, ts[1..], genError, load)
  }

  /** Drive over a first term `t` and the terms after it, when `t` raises an exception. */
  lemma DriveRaises(removeSpecial: bool, st: IState, l: Links, t: Term, rest: seq<Term>, genError: Option<Exc>, load: string -> Result<DVal>)
    requires LinksOk(l) && Step(removeSpecial, st, t, load).2.Some?
    ensures Drive(removeSpecial, st, l, [t] + rest, genError, load)
         == (Step(removeSpecial, st, t, load).0, Err(Step(removeSpecial, st, t, load).2.value))
  {
    assert ([t] + rest)[0] == t;
  }

  /** Drive over a first term that is dropped from the stream. */
  lemma DriveDrops(removeSpecial: bool, st: IState, l: Links, t: Term, rest: seq<Term>, genError: Option<Exc>, load: string -> Result<DVal>)
    requires LinksOk(l)
    requires Step(removeSpecial, st, t, load).2.None? && Step(removeSpecial, st, t, load).1.term.None?
    ensures Drive(removeSpecial, st, l, [t] + rest, genError, load)
         == Drive(removeSpecial, Step(removeSpecial, st, t, load).0, l, rest, genError, load)
  {
    assert ([t] + rest)[0] == t && ([t] + rest)[1..] == rest;
  }

  /** Drive over a first term that is handed on and linked, or whose parent is missing. */
  lemma DriveLinks(removeSpecial: bool, st: IState, l: Links, t: Term, rest: seq<Term>, genError: Option<Exc>, load: string -> Result<DVal>)
    requires LinksOk(l)
    requires Step(removeSpecial, st, t, load).2.None? && Step(removeSpecial, st, t, load).1.term.Some?
    ensures var u := Step(removeSpecial, st, t, load).1.term.value;
      Drive(removeSpecial, st, l, [t] + rest, genError, load)
        == if LinkStep(l, u).Err? then (Step(removeSpecial, st, t, load).0, Err(ParserError))
           else Drive(removeSpecial, Step(removeSpecial, st, t, load).0, LinkStep(l, u).value, rest, genError, load)
  {
    assert ([t] + rest)[0] == t && ([t] + rest)[1..] == rest;
  }

  /**
   * Linking as the terms come gives the same outcome as interpreting all
   * of them and then linking what was handed on: a parent missing from
   * the map is a ParserError before any later exception.
   */
  lemma {:induction false} DriveIsRunThenLink(removeSpecial: bool, st: IState, l: Links, ts: seq<Term>, genError: Option<Exc>, load: string -> Result<DVal>)
    requires LinksOk(l)
    ensures var run := RunAll(removeSpecial, st, ts, genError, load);
      Drive(removeSpecial, st, l, ts, genError, load).1 ==
        match LinkAll(l, run.out)
        case Err(x) => Err(x)
        case Ok(l1) => if run.error.Some? then Err(run.error.value) else Ok(l1)
    decreases |ts|
  {
    if ts != [] {
      var s := Step(removeSpecial, st, ts[0], load);
      if s.2.None? {
        if s.1.term.None? {
          DriveIsRunThenLink(removeSpecial, s.0, l, ts[1..], genError, load);
          assert RunAll(removeSpecial, st, ts, genError, load).out == RunAll(removeSpecial, s.0, ts[1..], genError, load).out;
        } else {
          var run := RunAll(removeSpecial, s.0, ts[1..], genError, load);
          var out := [s.1.term.value] + run.out;
          assert out[0] == s.1.term.value && out[1..] == run.out;
          if LinkStep(l, s.1.term.value).Ok? {
            DriveIsRunThenLink(removeSpecial, s.0, LinkStep(l, s.1.term.value).value, ts[1..], genError, load);
          }
        }
      }
    }
  }

  /** What link_terms returns for an outcome of Drive: the node list, or the exception. */
  function NodesOf(d: Result<Links>): (r: Result<seq<LNode>>)
    ensures r.Ok? <==> d.Ok?
    ensures r.Ok? ==> r.value == d.value.nodes
    ensures r.Err? ==> r.error == d.error
  {
    match d
    case Ok(l) => Ok(l.nodes)
    case Err(x) => Err(x)
  }

  /** The converted document of a finished link: the root's value. */
  function AsDictSpec(removeSpecial: bool, st: IState, g: Gen, load: string -> Result<DVal>): Result<DVal>
  {
    var l :- Drive(removeSpecial, st, LinkInit(), g.terms, g.error, load).1;
    Ok(Convert(l.nodes, 0))
  }

  /** The state of a fresh interpreter. */
  const INITIAL: IState := IState("root", [], Decls([], []), [])

  class TermInterpreter {
    const removeSpecial: bool
    var lastParent: string
    var paramMap: seq<Parser.Param>
    var sections: Dict<string, SecDecl>
    var terms: Dict<string, Dict<string, DVal>>
    var errors: seq<(Exc, Term)>

    /** The interpreter's state as one value. */
    function State(): IState
      reads this
    {
      IState(lastParent, paramMap, Decls(sections, terms), errors)
    }

    /** TermInterpreter(term_gen, remove_special): no parameter map, no declarations, no errors. */
    constructor(removeSpecial: bool)
      ensures this.removeSpecial == removeSpecial && State() == INITIAL
    {
      this.removeSpecial := removeSpecial;
      lastParent := "root";
      paramMap := [];
      sections := [];
      terms := [];
      errors := [];
    }

    /** One term of __iter__, applied to this interpreter. */
    method Next(t: Term, load: string -> Result<DVal>) returns (e: Emitted, err: Option<Exc>)
      modifies this
      ensures (State(), e, err) == Step(removeSpecial, old(State()), t, load)
    {
      var s := Step(removeSpecial, State(), t, load);
      lastParent, paramMap, sections, terms, errors := s.0.lastParent, s.0.paramMap, s.0.decls.sections, s.0.decls.terms, s.0.errors;
      e, err := s.1, s.2;
    }

    /** link_terms(): the tree of the terms this interpreter hands on, built as they come. */
    method LinkTerms(g: Gen, load: string -> Result<DVal>) returns (r: Result<seq<LNode>>)
      modifies this
      ensures var dr := Drive(removeSpecial, old(State()), LinkInit(), g.terms, g.error, load);
        State() == dr.0 && r == NodesOf(dr.1)
    {
      var nodes: seq<LNode> := [LNode(ROOT, [])];
      var last: map<string, nat> := map[NO_TERM := 0];
      ghost var target := Drive(removeSpecial, old(State()), LinkInit(), g.terms, g.error, load);
      var ts := g.terms;
      while ts != []
        invariant LinksOk(Links(nodes, last))
        invariant target == Drive(removeSpecial, State(), Links(nodes, last), ts, g.error, load)
      {
        var stop;
        nodes, last, stop := LinkOne(nodes, last, ts, g.error, load);
        if stop.Some? {
          return Err(stop.value);
        }
        ts := ts[1..];
      }
      if g.error.Some? {
        return Err(g.error.value);
      }
      return Ok(nodes);
    }

    /**
     * One turn of link_terms' loop: the term is interpreted, and the term
     * handed on, if any, is linked; `stop` is the exception that ends the loop.
     */
    method LinkOne(nodes: seq<LNode>, last: map<string, nat>, ts: seq<Term>, ghost genError: Option<Exc>, load: string -> Result<DVal>)
      returns (nodes': seq<LNode>, last': map<string, nat>, stop: Option<Exc>)
      requires LinksOk(Links(nodes, last)) && ts != []
      modifies this
      ensures LinksOk(Links(nodes', last'))
      ensures var d := Drive(removeSpecial, old(State()), Links(nodes, last), ts, genError, load);
        if stop.Some? then d == (State(), Err(stop.value))
        else d == Drive(removeSpecial, State(), Links(nodes', last'), ts[1..], genError, load)
    {
      ghost var stB := State();
      var t := ts[0];
      ghost var rest := ts[1..];
      assert ts == [t] + rest;
      nodes', last', stop := nodes, last, None;
      var e, err := Next(t, load);
      if err.Some? {
        DriveRaises(removeSpecial, stB, Links(nodes, last), t, rest, genError, load);
        stop := err;
        return;
      }
      if e.term.Some? {
        DriveLinks(removeSpecial, stB, Links(nodes, last), t, rest, genError, load);
        var u := e.term.value;
        if u.parentTerm !in last {
          stop := Some(ParserError);
          return;
        }
        nodes', last' := AddNode(nodes, last, u);
      } else {
        DriveDrops(removeSpecial, stB, Links(nodes, last), t, rest, genError, load);
      }
    }

    /** One term of link_terms: added as the last child of its parent's node, and recorded under its names. */
    static method AddNode(nodes: seq<LNode>, last: map<string, nat>, t: Term) returns (nodes': seq<LNode>, last': map<string, nat>)
      requires LinksOk(Links(nodes, last)) && t.parentTerm in last
      ensures LinkStep(Links(nodes, last), t) == Ok(Links(nodes', last'))
    {
      var p := last[t.parentTerm];
      var n := |nodes|;
      nodes' := nodes[p := nodes[p].(children := nodes[p].children + [n])] + [LNode(t, [])];
      last' := last;
      if !t.isArgChild && t.parentTerm != ELIDED_TERM {
        last' := last[ELIDED_TERM := n][t.recordTerm := n];
      }
    }

    /** as_dict(): the linked tree converted, from the root. */
    method AsDict(g: Gen, load: string -> Result<DVal>) returns (r: Result<DVal>)
      modifies this
      ensures r == AsDictSpec(removeSpecial, old(State()), g, load)
      ensures State() == Drive(removeSpecial, old(State()), LinkInit(), g.terms, g.error, load).0
    {
      var l := LinkTerms(g, load);
      if l.Err? {
        return Err(l.error);
      }
      var v := ConvertToDict(l.value, 0);
      return Ok(v);
    }
  }
}
