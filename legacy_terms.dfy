// The older Python parser, python/metatab/parser.py: the Term record,
// split_term, and TermGenerator, which turns the rows of a file into terms.
//
// TermGenerator is a generator: its consumer sees the terms it yields up to
// the point where it raises. Its output is modelled as those terms with the
// exception that ended it, if any (`Gen`). Reading a CSV file is given as
// a table from path to rows; a path missing from it is the IncludeError
// that CsvPathRowGenerator.open raises.
module LegacyTerms {
  import opened Wrappers
  import opened Text

  /** The parent of a term with no '.' in its name. */
  const NO_TERM: string := "<no_term>"
  /** The parent of a term written `.record`. */
  const ELIDED_TERM: string := "<elided_term>"

  type Row = seq<string>

  /** A Term object; `children` lives in the linked tree (LegacyDict). */
  datatype Term = Term(
    parentTerm: string,
    recordTerm: string,
    value: Option<string>,
    args: seq<string>,
    row: Option<nat>,
    col: Option<nat>,
    fileName: Option<string>,
    isArgChild: bool,
    termValueName: string,
    childPropertyType: string,
    valid: Option<bool>)

  // ---------------------------------------------------------------------
  // split_term

  /** Term.split_term: a name with one '.' is parent and record; with none the parent is NO_TERM; with more, unpacking fails. */
  function SplitTerm(term: string): (r: Result<(string, string)>)
    ensures '.' !in term ==> r == Ok((NO_TERM, Strip(term)))
    ensures r.Err? ==> r.error == ValueError
    ensures r.Ok? ==> '.' !in r.value.1
  {
    if '.' in term then
      var parts := Split(term, '.');
      if |parts| != 2 then Err(ValueError)
      else
        var p := Strip(parts[0]);
        StripKeepsOut(parts[1], '.');
        Ok((if p == "" then ELIDED_TERM else p, Strip(parts[1])))
    else
      StripKeepsOut(term, '.');
      Ok((NO_TERM, Strip(term)))
  }

  /** A name with one '.' splits into its two stripped parts; a blank parent is ELIDED_TERM. */
  lemma SplitTermPair(p: string, q: string)
    requires '.' !in p && '.' !in q
    ensures SplitTerm(p + "." + q) == Ok((if Strip(p) == "" then ELIDED_TERM else Strip(p), Strip(q)))
  {
    SplitPair(p, q, '.');
    assert (p + "." + q)[|p|] == '.';
  }

  /** A name with two or more dots is a ValueError. */
  lemma SplitTermManyDots(term: string)
    requires multiset(term)['.'] >= 2
    ensures SplitTerm(term) == Err(ValueError)
  {
    SplitCount(term, '.');
    assert '.' in multiset(term);
  }

  /** Term.split_term_lower: split_term with both parts lower-cased. */
  function SplitTermLower(term: string): (r: Result<(string, string)>)
  {
    var pr :- SplitTerm(term);
    Ok((Lower(pr.0), Lower(pr.1)))
  }

  lemma SentinelsLower()
    ensures Lower(NO_TERM) == NO_TERM && Lower(ELIDED_TERM) == ELIDED_TERM
  {
    LowerOfLower(NO_TERM);
    LowerOfLower(ELIDED_TERM);
  }

  /** Both parts come out lower-case, a sentinel parent unchanged; the record has no '.'. */
  lemma SplitTermLowerShape(term: string)
    requires SplitTermLower(term).Ok?
    ensures var r := SplitTermLower(term).value;
      IsLower(r.0) && IsLower(r.1) && '.' !in r.1
      && (SplitTerm(term).value.0 == NO_TERM ==> r.0 == NO_TERM)
      && (SplitTerm(term).value.0 == ELIDED_TERM ==> r.0 == ELIDED_TERM)
  {
    var pr := SplitTerm(term).value;
    assert SplitTermLower(term).value == (Lower(pr.0), Lower(pr.1));
    LowerPair(pr.0, pr.1);
  }

  lemma LowerPair(a: string, b: string)
    requires '.' !in b
    ensures IsLower(Lower(a)) && IsLower(Lower(b)) && '.' !in Lower(b)
    ensures a == NO_TERM ==> Lower(a) == NO_TERM
    ensures a == ELIDED_TERM ==> Lower(a) == ELIDED_TERM
  {
    LowerIdempotent(a);
    LowerIdempotent(b);
    SentinelsLower();
    assert forall i :: 0 <= i < |b| ==> Lower(b)[i] == LowerChar(b[i]) && b[i] != '.';
  }

  // ---------------------------------------------------------------------
  // Term.__init__

  /** The stripped arguments. */
  function StripAll(args: seq<string>): (r: seq<string>)
    ensures |r| == |args| && forall i :: 0 <= i < |args| ==> r[i] == Strip(args[i])
  {
    if args == [] then [] else [Strip(args[0])] + StripAll(args[1..])
  }

  /**
   * Term(term, value, term_args, row, col, file_name, is_arg_child): the
   * name split and lower-cased, a falsy value None and any other stripped,
   * the arguments stripped, and the defaults '@value' and 'any'.
   */
  function NewTerm(term: string, value: string, args: seq<string>, row: Option<nat>, col: Option<nat>,
                   fileName: Option<string>, isArgChild: bool): (r: Result<Term>)
    ensures r.Err? <==> SplitTerm(term).Err?
    ensures r.Ok? ==> && (r.value.parentTerm, r.value.recordTerm) == SplitTermLower(term).value
                      && (r.value.value.None? <==> value == "")
                      && (r.value.value.Some? ==> r.value.value.value == Strip(value))
                      && r.value.args == StripAll(args)
                      && r.value.termValueName == "@value" && r.value.childPropertyType == "any"
                      && r.value.valid.None?
  {
    var pr :- SplitTermLower(term);
    Ok(Term(pr.0, pr.1, if value == "" then None else Some(Strip(value)), StripAll(args),
            row, col, fileName, isArgChild, "@value", "any", None))
  }

  // ---------------------------------------------------------------------
  // TermGenerator.__iter__

  /** What a generator yields before it stops, and the exception that stopped it. */
  datatype Gen = Gen(terms: seq<Term>, error: Option<Exc>)

  function Prepend(ts: seq<Term>, g: Gen): Gen
  {
    Gen(ts + g.terms, g.error)
  }

  /** A row whose first cell is blank or starts with '#' yields nothing. */
  predicate SkipRow(row: Row)
    requires row != []
  {
    Strip(row[0]) == "" || StartsWith(Strip(row[0]), "#")
  }

  /** The term of a row: its first cell lower-cased, the second as value, the rest as arguments, at column 1. */
  function RowTerm(row: Row, lineN: nat, path: Option<string>): (r: Result<Term>)
    requires row != []
    ensures r.Err? <==> SplitTerm(Lower(row[0])).Err?
    ensures r.Ok? ==> && IsLower(r.value.parentTerm) && IsLower(r.value.recordTerm) && '.' !in r.value.recordTerm
                      && r.value.row == Some(lineN) && r.value.col == Some(1) && !r.value.isArgChild
  {
    var r := NewTerm(Lower(row[0]), if |row| > 1 then row[1] else "", if |row| > 2 then row[2..] else [],
                     Some(lineN), Some(1), path, false);
    if r.Ok? then SplitTermLowerShape(Lower(row[0])); r else r
  }

  /** The child term `record.col` for the argument at `col`, in column col + 2. */
  function ArgChild(t: Term, col: nat, value: string, lineN: nat, path: Option<string>): (r: Result<Term>)
  {
    NewTerm(Lower(t.recordTerm) + "." + NatToString(col), value, [], Some(lineN), Some(col + 2), path, true)
  }

  /** The indexes, from `from` on, of the arguments that are not blank, in increasing order. */
  function NonBlank(args: seq<string>, from: nat): (r: seq<nat>)
    requires from <= |args|
    ensures forall j :: 0 <= j < |r| ==> from <= r[j] < |args| && Strip(args[r[j]]) != ""
    ensures forall j, k :: 0 <= j < k < |r| ==> r[j] < r[k]
    decreases |args| - from
  {
    if from == |args| then []
    else if Strip(args[from]) != "" then [from] + NonBlank(args, from + 1)
    else NonBlank(args, from + 1)
  }

  /** Every non-blank argument from `from` on is listed, at some position j. */
  lemma {:induction false} NonBlankPos(args: seq<string>, from: nat, i: nat) returns (j: nat)
    requires from <= i < |args| && Strip(args[i]) != ""
    ensures j < |NonBlank(args, from)| && NonBlank(args, from)[j] == i
    decreases |args| - from
  {
    if i == from {
      j := 0;
    } else {
      var k := NonBlankPos(args, from + 1, i);
      j := if Strip(args[from]) != "" then k + 1 else k;
    }
  }

  /** The child of the argument at `i` of a record with no '.': it always splits, into the record and the index. */
  function ChildTerm(t: Term, i: nat, lineN: nat, path: Option<string>): (c: Term)
    requires '.' !in t.recordTerm && i < |t.args| && Strip(t.args[i]) != ""
    ensures ArgChild(t, i, t.args[i], lineN, path) == Ok(c)
    ensures c.isArgChild && c.col == Some(i + 2) && c.row == Some(lineN)
    ensures c.recordTerm == NatToString(i) && c.value == Some(Strip(t.args[i])) && c.args == []
    ensures IsLower(c.parentTerm) && IsLower(c.recordTerm)
  {
    ChildOk(t, i, t.args[i], lineN, path);
    ArgChild(t, i, t.args[i], lineN, path).value
  }

  lemma ChildOk(t: Term, i: nat, value: string, lineN: nat, path: Option<string>)
    requires '.' !in t.recordTerm
    ensures ArgChild(t, i, value, lineN, path).Ok?
    ensures var c := ArgChild(t, i, value, lineN, path).value;
      c.recordTerm == NatToString(i) && IsLower(c.parentTerm) && IsLower(c.recordTerm)
  {
    var rec := Lower(t.recordTerm);
    var n := NatToString(i);
    assert '.' !in rec by {
      assert forall j :: 0 <= j < |rec| ==> rec[j] == LowerChar(t.recordTerm[j]);
    }
    NatToStringPlain(i);
    var parent := if Strip(rec) == "" then ELIDED_TERM else Strip(rec);
    assert SplitTerm(rec + "." + n) == Ok((parent, n)) by {
      SplitTermPair(rec, n);
    }
    assert SplitTermLower(rec + "." + n) == Ok((Lower(parent), n));
    assert IsLower(Lower(parent)) by {
      LowerIdempotent(parent);
    }
  }

  /** The argument children of a term: one per non-blank argument, in argument order. */
  function ArgChildren(t: Term, lineN: nat, path: Option<string>): (r: seq<Term>)
    requires '.' !in t.recordTerm
    ensures var idx := NonBlank(t.args, 0);
      |r| == |idx| && forall j :: 0 <= j < |r| ==> r[j] == ChildTerm(t, idx[j], lineN, path)
  {
    var idx := NonBlank(t.args, 0);
    seq(|idx|, j requires 0 <= j < |idx| => ChildTerm(t, idx[j], lineN, path))
  }

  /** What a row other than an Include yields: its term, then (unless it is a Section) its argument children. */
  function RowEmits(row: Row, lineN: nat, path: Option<string>): (r: Result<seq<Term>>)
    requires row != []
  {
    var t :- RowTerm(row, lineN, path);
    if t.recordTerm != "section" then Ok([t] + ArgChildren(t, lineN, path)) else Ok([t])
  }

  /** TermGenerator over `rows` from index `k` on (line k + 1), in the file `path`. */
  function GenFrom(fuel: nat, files: map<string, seq<Row>>, path: Option<string>, rows: seq<Row>, k: nat): (g: Gen)
    requires k <= |rows|
    decreases fuel, |rows| - k, 1
  {
    if k == |rows| then Gen([], None)
    else if rows[k] == [] then Gen([], Some(IndexError))        // row[0] of an empty row
    else if SkipRow(rows[k]) then GenFrom(fuel, files, path, rows, k + 1)
    else
      var tr := RowTerm(rows[k], k + 1, path);
      if tr.Err? then Gen([], Some(tr.error))
      else
        var t := tr.value;
        if t.recordTerm == "include" then
          var inc := Prepend([t], IncludeGen(fuel, files, path, t));
          if inc.error.Some? then inc else Prepend(inc.terms, GenFrom(fuel, files, path, rows, k + 1))
        else Prepend(RowEmits(rows[k], k + 1, path).value, GenFrom(fuel, files, path, rows, k + 1))
  }

  /**
   * The terms of the file an Include term names: with no current path the
   * ParserError's message refers to a missing attribute, so it is an
   * AttributeError; a None value has no strip(); the reference is taken
   * as is when it starts with 'http' and beside the current file otherwise.
   */
  function IncludeGen(fuel: nat, files: map<string, seq<Row>>, path: Option<string>, t: Term): (g: Gen)
    decreases fuel, 0, 0
  {
    if path.None? || path.value == "" then Gen([], Some(AttributeError))
    else if t.value.None? then Gen([], Some(AttributeError))
    else
      var ref := StripChar(t.value.value, '/');
      var p := if StartsWith(ref, "http") then ref else PathJoin(Dirname(path.value), ref);
      if p !in files then Gen([], Some(IncludeError))
      else if fuel == 0 then Gen([], Some(RecursionLimit))
      else GenFrom(fuel - 1, files, Some(p), files[p], 0)
  }

  /** TermGenerator(row_gen) for a file read from `path`: every term it yields has a lower-case parent and record name. */
  function Generate(fuel: nat, files: map<string, seq<Row>>, path: Option<string>, rows: seq<Row>): (g: Gen)
    ensures forall t :: t in g.terms ==> IsLower(t.parentTerm) && IsLower(t.recordTerm)
  {
    GenLower(fuel, files, path, rows, 0);
    GenFrom(fuel, files, path, rows, 0)
  }

  // ---------------------------------------------------------------------
  // Properties of the generator

  /** An argument has a child exactly when it is not blank. */
  lemma ArgChildrenExact(t: Term, lineN: nat, path: Option<string>, i: nat)
    requires '.' !in t.recordTerm && i < |t.args|
    ensures var kids := ArgChildren(t, lineN, path);
      (exists j :: 0 <= j < |kids| && kids[j].col == Some(i + 2)) <==> Strip(t.args[i]) != ""
  {
    if Strip(t.args[i]) != "" {
      var j := NonBlankPos(t.args, 0, i);
      KidColumn(t, lineN, path, j);
    } else {
      BlankHasNoKid(t, lineN, path, i);
    }
  }

  /** No child stands in the column of a blank argument. */
  lemma BlankHasNoKid(t: Term, lineN: nat, path: Option<string>, i: nat)
    requires '.' !in t.recordTerm && i < |t.args| && Strip(t.args[i]) == ""
    ensures var kids := ArgChildren(t, lineN, path);
      forall j :: 0 <= j < |kids| ==> kids[j].col != Some(i + 2)
  {
    var kids := ArgChildren(t, lineN, path);
    forall j | 0 <= j < |kids| ensures kids[j].col != Some(i + 2) {
      KidColumn(t, lineN, path, j);
    }
  }

  /** Child j stands in the column of the j-th non-blank argument. */
  lemma KidColumn(t: Term, lineN: nat, path: Option<string>, j: nat)
    requires '.' !in t.recordTerm && j < |NonBlank(t.args, 0)|
    ensures var idx := NonBlank(t.args, 0);
      |ArgChildren(t, lineN, path)| == |idx| && ArgChildren(t, lineN, path)[j].col == Some(idx[j] + 2)
      && Strip(t.args[idx[j]]) != ""
  {
  }

  /** A row's term comes first, then its children in column order; a Section row has no children. */
  lemma RowEmitsShape(row: Row, lineN: nat, path: Option<string>)
    requires row != [] && RowTerm(row, lineN, path).Ok?
    ensures var t := RowTerm(row, lineN, path).value; var em := RowEmits(row, lineN, path);
      em.Ok? && em.value[0] == t
      && (t.recordTerm == "section" ==> em.value == [t])
      && (t.recordTerm != "section" ==> em.value[1..] == ArgChildren(t, lineN, path))
  {
    var t := RowTerm(row, lineN, path).value;
    if t.recordTerm != "section" {
      var em := RowEmits(row, lineN, path).value;
      assert em[1..] == ArgChildren(t, lineN, path);
    }
  }

  /** The argument children come in increasing column order. */
  lemma ArgChildrenOrdered(t: Term, lineN: nat, path: Option<string>)
    requires '.' !in t.recordTerm
    ensures var kids := ArgChildren(t, lineN, path);
      forall j, k :: 0 <= j < k < |kids| ==> kids[j].col.Some? && kids[k].col.Some? && kids[j].col.value < kids[k].col.value
  {
  }

  /** Every term the generator yields has a lower-case parent and record name. */
  lemma {:induction false} GenLower(fuel: nat, files: map<string, seq<Row>>, path: Option<string>, rows: seq<Row>, k: nat)
    requires k <= |rows|
    ensures forall t :: t in GenFrom(fuel, files, path, rows, k).terms ==> IsLower(t.parentTerm) && IsLower(t.recordTerm)
    decreases fuel, |rows| - k, 1
  {
    if k < |rows| && rows[k] != [] {
      if SkipRow(rows[k]) {
        GenLower(fuel, files, path, rows, k + 1);
      } else {
        RowLower(fuel, files, path, rows, k);
      }
    }
  }

  lemma {:induction false} RowLower(fuel: nat, files: map<string, seq<Row>>, path: Option<string>, rows: seq<Row>, k: nat)
    requires k < |rows| && rows[k] != [] && !SkipRow(rows[k])
    ensures forall t :: t in GenFrom(fuel, files, path, rows, k).terms ==> IsLower(t.parentTerm) && IsLower(t.recordTerm)
    decreases fuel, |rows| - k, 0
  {
    if RowTerm(rows[k], k + 1, path).Ok? {
      var t := RowTerm(rows[k], k + 1, path).value;
      GenLower(fuel, files, path, rows, k + 1);
      if t.recordTerm == "include" {
        IncludeLower(fuel, files, path, t);
      } else {
        EmitsLower(rows[k], k + 1, path);
      }
    }
  }

  lemma EmitsLower(row: Row, lineN: nat, path: Option<string>)
    requires row != [] && RowEmits(row, lineN, path).Ok?
    ensures forall c :: c in RowEmits(row, lineN, path).value ==> IsLower(c.parentTerm) && IsLower(c.recordTerm)
  {
    var t := RowTerm(row, lineN, path).value;
    if t.recordTerm != "section" {
      var kids := ArgChildren(t, lineN, path);
      forall c | c in kids ensures IsLower(c.parentTerm) && IsLower(c.recordTerm) {
        var j :| 0 <= j < |kids| && kids[j] == c;
      }
    }
  }

  lemma {:induction false} IncludeLower(fuel: nat, files: map<string, seq<Row>>, path: Option<string>, t: Term)
    ensures forall u :: u in IncludeGen(fuel, files, path, t).terms ==> IsLower(u.parentTerm) && IsLower(u.recordTerm)
    decreases fuel, 0, 0
  {
    if path.Some? && path.value != "" && t.value.Some? {
      var ref := StripChar(t.value.value, '/');
      var p := if StartsWith(ref, "http") then ref else PathJoin(Dirname(path.value), ref);
      if p in files && fuel > 0 {
        GenLower(fuel - 1, files, Some(p), files[p], 0);
      }
    }
  }

  /** A file of blank and comment rows yields nothing and raises nothing. */
  lemma {:induction false} OnlySkippedRows(fuel: nat, files: map<string, seq<Row>>, path: Option<string>, rows: seq<Row>, k: nat)
    requires k <= |rows| && forall j :: k <= j < |rows| ==> rows[j] != [] && SkipRow(rows[j])
    ensures GenFrom(fuel, files, path, rows, k) == Gen([], None)
    decreases |rows| - k
  {
    if k < |rows| {
      OnlySkippedRows(fuel, files, path, rows, k + 1);
    }
  }

  /** An Include in a generator with no path: the Include term is yielded, then an AttributeError. */
  lemma IncludeWithoutPath(fuel: nat, files: map<string, seq<Row>>, rows: seq<Row>, k: nat)
    requires k < |rows| && rows[k] != [] && !SkipRow(rows[k]) && RowTerm(rows[k], k + 1, None).Ok?
    requires Lower(RowTerm(rows[k], k + 1, None).value.recordTerm) == "include"
    ensures GenFrom(fuel, files, None, rows, k) == Gen([RowTerm(rows[k], k + 1, None).value], Some(AttributeError))
  {
    var t := RowTerm(rows[k], k + 1, None).value;
    assert t.recordTerm == "include" by {
      LowerOfLower(t.recordTerm);
    }
    var inc := Prepend([t], IncludeGen(fuel, files, None, t));
    assert inc == Gen([t], Some(AttributeError)) by {
      assert [t] + [] == [t];
    }
  }
}
