// The JavaScript port of the Metatab parser (js/metatab.js): splitting a
// term name into parent and record, the Term object and its clone, turning
// parsed CSV rows into terms with their argument children, and the
// interpreter's run loop, which resolves elided parents and renames
// argument children after the arguments of the last section.
module JsMetatab {
  import opened Wrappers
  import opened Text

  const ELIDED_TERM: string := "<elided_term>"
  const NO_TERM: string := "<no_term>"

  /** A JavaScript property that holds null, undefined or a string. */
  datatype JsStr = Null | Undefined | Str(s: string)

  // ---------------------------------------------------------------------
  // splitTerm, splitTermLower

  /**
   * What splitTerm returns: with a '.', the first two pieces of
   * `term.split('.')`, trimmed, an empty parent being the elided term;
   * without one, NO_TERM and the trimmed name.
   */
  function TermParts(term: string): (string, string)
  {
    match IndexOf(term, '.')
    case None => (NO_TERM, JsTrim(term))
    case Some(i) =>
      var parent := JsTrim(term[..i]);
      (if parent == "" then ELIDED_TERM else parent, JsTrim(FirstPiece(term[i + 1..], '.')))
  }

  /** What splitTermLower returns: both parts lower-cased. */
  function TermPartsLower(term: string): (string, string)
  {
    var p := TermParts(term);
    (Lower(p.0), Lower(p.1))
  }

  /** The record part never holds a '.', and the parent part is never empty. */
  lemma TermPartsShape(term: string)
    ensures '.' !in TermParts(term).1 && TermParts(term).0 != ""
    ensures '.' !in TermPartsLower(term).1 && TermPartsLower(term).0 != ""
    ensures IsLower(TermPartsLower(term).0) && IsLower(TermPartsLower(term).1)
  {
    IndexOfSpec(term, '.');
    match IndexOf(term, '.')
    case None =>
      JsTrimKeepsOut(term, '.');
    case Some(i) =>
      FirstPieceShape(term[i + 1..], '.');
      JsTrimKeepsOut(FirstPiece(term[i + 1..], '.'), '.');
    var p := TermParts(term);
    LowerIdempotent(p.0);
    LowerIdempotent(p.1);
    assert forall i :: 0 <= i < |p.1| ==> Lower(p.1)[i] == LowerChar(p.1[i]);
  }

  /** A name with one '.' splits into its two trimmed sides. */
  lemma TermPartsPair(p: string, q: string)
    requires '.' !in p && '.' !in q
    ensures TermParts(p + "." + q) == (if JsTrim(p) == "" then ELIDED_TERM else JsTrim(p), JsTrim(q))
  {
    var s := p + "." + q;
    IndexOfAfter(p, q, '.');
    assert s[..|p|] == p && s[|p| + 1..] == q;
    FirstPieceWhole(q, '.');
  }

  /** Whatever follows a second '.' is dropped: the name splits as if it ended there. */
  lemma TermPartsDropsRest(p: string, q: string, rest: string)
    requires '.' !in p && '.' !in q
    ensures TermParts(p + "." + q + "." + rest) == TermParts(p + "." + q)
  {
    var s := p + "." + q + "." + rest;
    assert s == p + "." + (q + "." + rest);
    IndexOfAfter(p, q + "." + rest, '.');
    assert s[..|p|] == p && s[|p| + 1..] == q + "." + rest;
    IndexOfAfter(q, rest, '.');
    assert (q + "." + rest)[..|q|] == q;
    assert FirstPiece(q + "." + rest, '.') == q;
    TermPartsPair(p, q);
    assert TermParts(s) == (if JsTrim(p) == "" then ELIDED_TERM else JsTrim(p), JsTrim(q));
  }

  /** join(t1, t2): the two names with a '.' between them. */
  function JoinNames(t1: string, t2: string): string
  {
    t1 + "." + t2
  }

  /** Joining a trimmed parent and record and splitting the result gives them back. */
  lemma JoinSplits(p: string, q: string)
    requires '.' !in p && '.' !in q && p != ""
    requires JsTrim(p) == p && JsTrim(q) == q
    ensures TermParts(JoinNames(p, q)) == (p, q)
  {
    TermPartsPair(p, q);
  }

  /** The module-level variables `parentTerm` and `recordTerm`, which splitTerm writes. */
  class Globals {
    var parentTerm: JsStr
    var recordTerm: JsStr

    /** Both variables start undefined. */
    constructor()
      ensures parentTerm == Undefined && recordTerm == Undefined
    {
      parentTerm := Undefined;
      recordTerm := Undefined;
    }

    /** splitTerm(term): the two parts are computed into the module variables and returned. */
    method SplitTerm(term: string) returns (parent: string, record: string)
      modifies this
      ensures (parent, record) == TermParts(term)
      ensures parentTerm == Str(parent) && recordTerm == Str(record)
    {
      var dot := IndexOf(term, '.');
      if dot.Some? {
        parentTerm := Str(JsTrim(term[..dot.value]));
        recordTerm := Str(JsTrim(FirstPiece(term[dot.value + 1..], '.')));
        if parentTerm == Str("") {
          parentTerm := Str(ELIDED_TERM);
        }
      } else {
        parentTerm := Str(NO_TERM);
        recordTerm := Str(JsTrim(term));
      }
      parent, record := parentTerm.s, recordTerm.s;
    }

    /** splitTermLower(term): splitTerm's parts, lower-cased; the module variables keep the original case. */
    method SplitTermLower(term: string) returns (parent: string, record: string)
      modifies this
      ensures (parent, record) == TermPartsLower(term)
      ensures parentTerm == Str(TermParts(term).0) && recordTerm == Str(TermParts(term).1)
    {
      var p, r := SplitTerm(term);
      parent, record := Lower(p), Lower(r);
    }
  }

  // ---------------------------------------------------------------------
  // The Term object

  /** The data of a Term object, its `children` aside. */
  datatype TermVal = TermVal(
    term: string, parentTerm: string, recordTerm: string, value: string, termArgs: seq<string>,
    section: JsStr, fileName: JsStr, row: Option<nat>, col: Option<nat>,
    termValueName: string, childPropertyType: string, valid: Option<bool>, isArgChild: Option<bool>)

  /** How many arguments are not blank once trimmed: the constructor's `valid_vals`. */
  function NonBlankCount(args: seq<string>): (n: nat)
    ensures n <= |args|
  {
    if args == [] then 0
    else NonBlankCount(args[..|args| - 1]) + (if JsTrim(args[|args| - 1]) != "" then 1 else 0)
  }

  lemma NonBlankCountStep(args: seq<string>, i: nat)
    requires i < |args|
    ensures NonBlankCount(args[..i + 1]) == NonBlankCount(args[..i]) + (if JsTrim(args[i]) != "" then 1 else 0)
  {
    assert args[..i + 1][..i] == args[..i];
  }

  /** The constructor's `termArgs`: every argument trimmed, or none at all when every one is blank. */
  function TermArgs(args: seq<string>): seq<string>
  {
    if NonBlankCount(args) == 0 then [] else seq(|args|, i requires 0 <= i < |args| => JsTrim(args[i]))
  }

  /** `valid_vals` is 0 exactly when every argument is blank. */
  lemma {:induction false} NonBlankCountZero(args: seq<string>)
    ensures NonBlankCount(args) == 0 <==> forall i :: 0 <= i < |args| ==> JsTrim(args[i]) == ""
  {
    if args != [] {
      var init := args[..|args| - 1];
      NonBlankCountZero(init);
      assert forall i :: 0 <= i < |init| ==> init[i] == args[i];
    }
  }

  /** The arguments are dropped when all are blank, and otherwise kept, each trimmed, in order. */
  lemma TermArgsShape(args: seq<string>)
    ensures TermArgs(args) == [] <==> forall i :: 0 <= i < |args| ==> JsTrim(args[i]) == ""
    ensures TermArgs(args) != [] ==>
      |TermArgs(args)| == |args| && forall i :: 0 <= i < |args| ==> TermArgs(args)[i] == JsTrim(args[i])
  {
    NonBlankCountZero(args);
  }

  /** Building a Term from an existing Term's arguments, as clone does, changes nothing. */
  lemma TermArgsIdempotent(args: seq<string>)
    ensures TermArgs(TermArgs(args)) == TermArgs(args)
  {
    TermArgsShape(args);
    var r := TermArgs(args);
    TermArgsShape(r);
    if r != [] {
      forall i | 0 <= i < |r|
        ensures JsTrim(r[i]) == r[i]
      {
        JsTrimIdempotent(args[i]);
      }
      assert TermArgs(r) == r;
    }
  }

  /** A new Term placed in a file: what `new Term(term, value, termArgs)` makes, then given a file name, row and column. */
  function PlacedTerm(term: string, value: string, args: seq<string>, fileName: JsStr, row: Option<nat>, col: Option<nat>): TermVal
  {
    var p := TermPartsLower(term);
    TermVal(term, p.0, p.1, JsTrim(value), TermArgs(args), Null, fileName, row, col, "@value", "any", None, None)
  }

  /** The Term that `new Term(term, value, termArgs)` makes. */
  function NewTerm(term: string, value: string, args: seq<string>): TermVal
  {
    PlacedTerm(term, value, args, Null, None, None)
  }

  /** A term as the constructor leaves it: a trimmed value and arguments the constructor would keep as they are. */
  predicate Constructed(t: TermVal)
  {
    JsTrim(t.value) == t.value && TermArgs(t.termArgs) == t.termArgs
  }

  lemma NewTermConstructed(term: string, value: string, args: seq<string>)
    ensures Constructed(NewTerm(term, value, args))
    ensures IsLower(NewTerm(term, value, args).parentTerm) && IsLower(NewTerm(term, value, args).recordTerm)
  {
    JsTrimIdempotent(value);
    TermArgsIdempotent(args);
    TermPartsShape(term);
  }

  /**
   * clone(): a new Term from the same name, value and arguments, with the
   * names, position, value name, property type, validity and arg-child flag
   * copied over what the constructor set; so only the value and the
   * arguments pass through the constructor again. It copies `this.cection`
   * into `section` and `this.filename` into `filename`, properties a Term
   * does not have, so the clone's section is undefined and its `fileName`
   * keeps the constructor's null.
   */
  function CloneOf(t: TermVal): TermVal
  {
    t.(value := JsTrim(t.value), termArgs := TermArgs(t.termArgs), section := Undefined, fileName := Null)
  }

  /** The clone of a constructed term equals it but for an undefined section and a null fileName. */
  lemma CloneKeeps(t: TermVal)
    requires Constructed(t)
    ensures CloneOf(t) == t.(section := Undefined, fileName := Null)
  {
  }

  /**
   * A Term object. Its properties other than `children` are held as one
   * record value; each assignment the code makes to a property is an update
   * of that record.
   */
  class JsTerm {
    var props: TermVal
    var children: seq<JsTerm>

    /** new Term(term, value, termArgs); splitting the name also sets the module variables. */
    constructor(g: Globals, term: string, value: string, termArgs: seq<string>)
      modifies g
      ensures props == NewTerm(term, value, termArgs) && children == []
      ensures g.parentTerm == Str(TermParts(term).0) && g.recordTerm == Str(TermParts(term).1)
    {
      var p, r := g.SplitTermLower(term);
      var args := TrimArgs(termArgs);
      props := TermVal(term, p, r, JsTrim(value), args, Null, Null, None, None, "@value", "any", None, None);
      children := [];
    }

    /** The constructor's argument loop: each argument trimmed, counting those left non-empty. */
    static method TrimArgs(termArgs: seq<string>) returns (args: seq<string>)
      ensures args == TermArgs(termArgs)
    {
      args := [];
      var validVals: nat := 0;
      for i := 0 to |termArgs|
        invariant |args| == i && forall k :: 0 <= k < i ==> args[k] == JsTrim(termArgs[k])
        invariant validVals == NonBlankCount(termArgs[..i])
      {
        NonBlankCountStep(termArgs, i);
        if JsTrim(termArgs[i]) != "" {
          validVals := validVals + 1;
        }
        args := args + [JsTrim(termArgs[i])];
      }
      assert termArgs[..|termArgs|] == termArgs;
      if validVals == 0 {
        args := [];
      }
    }

    /** clone(): the copy CloneOf describes; the children list is shared. */
    method Clone(g: Globals) returns (c: JsTerm)
      modifies g
      ensures fresh(c) && c.props == CloneOf(props) && c.children == children
    {
      c := new JsTerm(g, props.term, props.value, props.termArgs);
      c.props := c.props.(parentTerm := props.parentTerm, recordTerm := props.recordTerm,
        section := Undefined, row := props.row, col := props.col, termValueName := props.termValueName,
        childPropertyType := props.childPropertyType, valid := props.valid, isArgChild := props.isArgChild);
      c.children := children;
    }
  }

  // ---------------------------------------------------------------------
  // termFromRow, generateTerms

  /** The term of a row: the constructor throws, and termFromRow gives null, without a name and a value cell. */
  function RowTerm(row: seq<string>): Option<TermVal>
  {
    if |row| < 2 then None else Some(NewTerm(row[0], row[1], row[2..]))
  }

  /**
   * termFromRow(row). Without a first cell splitTerm throws before writing
   * anything; without a second, the name has been split (and the module
   * variables set) when value.trim() throws.
   */
  method TermFromRow(g: Globals, row: seq<string>) returns (t: JsTerm?)
    modifies g
    ensures t == null <==> RowTerm(row).None?
    ensures t != null ==> fresh(t) && t.props == RowTerm(row).value
  {
    if |row| == 0 {
      return null;
    }
    if |row| == 1 {
      var p, r := g.SplitTermLower(row[0]);
      return null;
    }
    t := new JsTerm(g, row[0], row[1], row[2..]);
  }

  /** The argument child for argument i: named `record.i`, valued the argument, in column i + 2. */
  function ChildOf(t: TermVal, i: nat, rowNum: nat, path: string): TermVal
    requires i < |t.termArgs|
  {
    PlacedTerm(Lower(t.recordTerm) + "." + NatToString(i), t.termArgs[i], [], Str(path), Some(rowNum), Some(i + 2))
  }

  /** The children for the first k arguments, in order. */
  function ArgChildrenUpTo(t: TermVal, k: nat, rowNum: nat, path: string): seq<TermVal>
    requires k <= |t.termArgs|
  {
    if k == 0 then [] else ArgChildrenUpTo(t, k - 1, rowNum, path) + [ChildOf(t, k - 1, rowNum, path)]
  }

  /** There is one child for each of the first k arguments. */
  lemma {:induction false} ArgChildrenUpToLength(t: TermVal, k: nat, rowNum: nat, path: string)
    requires k <= |t.termArgs|
    ensures |ArgChildrenUpTo(t, k, rowNum, path)| == k
  {
    if k > 0 {
      ArgChildrenUpToLength(t, k - 1, rowNum, path);
    }
  }

  /** Child j of the first k is the child for argument j. */
  lemma {:induction false} ArgChildrenUpToAt(t: TermVal, k: nat, j: nat, rowNum: nat, path: string)
    requires j < k <= |t.termArgs|
    ensures |ArgChildrenUpTo(t, k, rowNum, path)| == k
    ensures ArgChildrenUpTo(t, k, rowNum, path)[j] == ChildOf(t, j, rowNum, path)
  {
    ArgChildrenUpToLength(t, k, rowNum, path);
    if j < k - 1 {
      ArgChildrenUpToLength(t, k - 1, rowNum, path);
      ArgChildrenUpToAt(t, k - 1, j, rowNum, path);
    }
  }

  /** The argument children of a primary term: one per argument, when the primary term's value is not blank. */
  function ArgChildren(t: TermVal, rowNum: nat, path: string): seq<TermVal>
  {
    if JsTrim(t.value) == "" then [] else ArgChildrenUpTo(t, |t.termArgs|, rowNum, path)
  }

  /** The terms generateTerms hands on for row `rowNum`: the primary term, then its argument children. */
  function RowTerms(row: seq<string>, rowNum: nat, path: string): seq<TermVal>
  {
    if |row| < 2 || row[0] == "" then []
    else
      var t := PlacedTerm(row[0], row[1], row[2..], Str(path), Some(rowNum), Some(1));
      [t] + (if Lower(t.recordTerm) != "section" then ArgChildren(t, rowNum, path) else [])
  }

  /** The terms handed on for the first k rows, in order: each placed in the file `path`, in one of those rows. */
  function Generated(rows: seq<seq<string>>, path: string, k: nat): seq<TermVal>
    requires k <= |rows|
  {
    if k == 0 then [] else Generated(rows, path, k - 1) + RowTerms(rows[k - 1], k - 1, path)
  }

  /**
   * A row without a name and a value cell, or with an empty name, hands on
   * nothing; otherwise the primary term comes first, in column 1 of its row.
   */
  lemma RowTermsPrimary(row: seq<string>, rowNum: nat, path: string)
    ensures RowTerms(row, rowNum, path) == [] <==> |row| < 2 || row[0] == ""
    ensures |row| >= 2 && row[0] != "" ==>
      RowTerms(row, rowNum, path)[0] == NewTerm(row[0], row[1], row[2..]).(fileName := Str(path), row := Some(rowNum), col := Some(1))
  {
  }

  /**
   * The children follow the primary term, one per kept argument, exactly
   * when the term is not a section and its value is not blank: the value of
   * the primary term, not of the argument, decides.
   */
  lemma RowTermsChildren(row: seq<string>, rowNum: nat, path: string)
    requires |row| >= 2 && row[0] != ""
    ensures var t := NewTerm(row[0], row[1], row[2..]);
      |RowTerms(row, rowNum, path)| ==
        1 + (if t.recordTerm != "section" && t.value != "" then |TermArgs(row[2..])| else 0)
  {
    var t := NewTerm(row[0], row[1], row[2..]);
    NewTermConstructed(row[0], row[1], row[2..]);
    LowerOfLower(t.recordTerm);
    var p := PlacedTerm(row[0], row[1], row[2..], Str(path), Some(rowNum), Some(1));
    ArgChildrenUpToLength(p, |p.termArgs|, rowNum, path);
  }

  /** A primary term with a blank value gets no children, whatever its arguments hold. */
  lemma BlankValueNoChildren(row: seq<string>, rowNum: nat, path: string)
    requires |row| >= 2 && row[0] != "" && JsTrim(row[1]) == ""
    ensures |RowTerms(row, rowNum, path)| == 1
  {
    JsTrimIdempotent(row[1]);
  }

  /**
   * Argument child i of a primary term whose record name is not empty: its
   * parent is that record name, its record name is the index, its value the
   * trimmed argument, and it has no arguments of its own.
   */
  lemma ChildShape(t: TermVal, i: nat, rowNum: nat, path: string)
    requires i < |t.termArgs| && Constructed(t)
    requires IsLower(t.recordTerm) && '.' !in t.recordTerm && t.recordTerm != "" && JsTrim(t.recordTerm) == t.recordTerm
    ensures var c := ChildOf(t, i, rowNum, path);
      && c.parentTerm == t.recordTerm && c.recordTerm == NatToString(i)
      && c.value == t.termArgs[i] && c.termArgs == []
      && c.row == Some(rowNum) && c.col == Some(i + 2) && c.isArgChild.None?
  {
    TermArgsShape(t.termArgs);
    LowerOfLower(t.recordTerm);
    var d := NatToString(i);
    assert '.' !in d by {
      assert forall k :: 0 <= k < |d| ==> IsDigit(d[k]);
    }
    TermPartsPair(t.recordTerm, d);
    JsTrimPlain(d);
    assert IsLower(d);
    LowerOfLower(d);
    JsTrimIdempotent(t.termArgs[i]);
    if t.termArgs != [] {
      assert t.termArgs[i] == JsTrim(t.termArgs[i]);
    }
  }

  /** generateTerms(path, cb) on the rows of the file: the terms handed to the callback, in order, as fresh Term objects. */
  method GenerateTerms(g: Globals, rows: seq<seq<string>>, path: string) returns (out: seq<JsTerm>)
    modifies g
    ensures |out| == |Generated(rows, path, |rows|)|
    ensures forall i :: 0 <= i < |out| ==> out[i].props == Generated(rows, path, |rows|)[i]
  {
    out := [];
    ghost var acc: seq<TermVal> := [];
    for r := 0 to |rows|
      invariant acc == Generated(rows, path, r)
      invariant |out| == |acc| && forall i :: 0 <= i < |out| ==> out[i].props == acc[i]
    {
      var more := RowTermObjects(g, rows[r], r, path);
      GeneratedStep(rows, path, r);
      ghost var row := RowTerms(rows[r], r, path);
      assert forall i :: 0 <= i < |more| ==> more[i].props == row[i];
      acc := acc + row;
      out := out + more;
    }
  }

  lemma GeneratedStep(rows: seq<seq<string>>, path: string, r: nat)
    requires r < |rows|
    ensures Generated(rows, path, r + 1) == Generated(rows, path, r) + RowTerms(rows[r], r, path)
  {
  }

  /** The callback of generateRows on one row: the primary term, then its argument children. */
  method RowTermObjects(g: Globals, row: seq<string>, rowNum: nat, path: string) returns (out: seq<JsTerm>)
    modifies g
    ensures |out| == |RowTerms(row, rowNum, path)|
    ensures forall i :: 0 <= i < |out| ==> out[i].props == RowTerms(row, rowNum, path)[i]
  {
    var term := TermFromRow(g, row);
    if term == null || term.props.term == "" {
      return [];
    }
    term.props := term.props.(row := Some(rowNum), col := Some(1), fileName := Str(path));
    out := [term];
    var t := term.props;
    if Lower(t.recordTerm) != "section" {
      var kids := ArgChildObjects(g, t, rowNum, path);
      out := out + kids;
    }
  }

  /** The loop over the primary term's arguments, one child per argument; the test that the primary value is not blank does not depend on the argument, so it is made once, before the loop. */
  method ArgChildObjects(g: Globals, t: TermVal, rowNum: nat, path: string) returns (out: seq<JsTerm>)
    modifies g
    ensures |out| == |ArgChildren(t, rowNum, path)|
    ensures forall i :: 0 <= i < |out| ==> out[i].props == ArgChildren(t, rowNum, path)[i]
  {
    out := [];
    if JsTrim(t.value) == "" {
      return;
    }
    ghost var kids: seq<TermVal> := [];
    for i := 0 to |t.termArgs|
      invariant kids == ArgChildrenUpTo(t, i, rowNum, path)
      invariant |out| == |kids| && forall j :: 0 <= j < |out| ==> out[j].props == kids[j]
    {
      var child := NewChild(g, t, i, rowNum, path);
      kids := kids + [child.props];
      out := out + [child];
    }
  }

  /** The body of that loop: `new Term(record.toLowerCase() + "." + String(i), args[i])`, placed in column i + 2. */
  method NewChild(g: Globals, t: TermVal, i: nat, rowNum: nat, path: string) returns (child: JsTerm)
    requires i < |t.termArgs|
    modifies g
    ensures fresh(child) && child.props == ChildOf(t, i, rowNum, path)
  {
    child := new JsTerm(g, Lower(t.recordTerm) + "." + NatToString(i), t.termArgs[i], []);
    child.props := child.props.(row := Some(rowNum), col := Some(i + 2), fileName := Str(path));
  }

  // ---------------------------------------------------------------------
  // TermInterpreter.run

  /** The variables run's callback keeps between terms: `lastParentTerm` and `paramMap`. */
  datatype RunState = RunState(lastParent: string, paramMap: map<int, string>)

  const START: RunState := RunState("root", map[])

  /** The parameter map a section term sets: argument i, lower-cased, under the number i. */
  function SectionParams(args: seq<string>): map<int, string>
  {
    map k | 0 <= k < |args| :: Lower(args[k])
  }

  /**
   * The record name a term ends up with: the parameter its parseInt value
   * names, when the map has one.
   */
  function RenamedRecord(st: RunState, t: TermVal): string
  {
    var key := JsParseInt(t.recordTerm);
    if key.Some? && key.value in st.paramMap then st.paramMap[key.value] else t.recordTerm
  }

  /**
   * The callback on one term: its clone gets the last parent when its
   * parent is elided (and there is a last parent); otherwise, unless it is
   * flagged an argument child, its record name becomes the last parent. A
   * record name that parseInt reads as a key of the parameter map is
   * replaced by that parameter. A section term then resets the map and is
   * not handed on; any other term is.
   */
  function Visit(st: RunState, t: TermVal): (RunState, Option<TermVal>)
  {
    var elided := t.parentTerm == ELIDED_TERM && st.lastParent != "";
    var last := if !elided && t.isArgChild != Some(true) then t.recordTerm else st.lastParent;
    var rec := RenamedRecord(st, t);
    if Lower(rec) == "section" then (RunState(last, SectionParams(TermArgs(t.termArgs))), None)
    else
      var handed := TermVal(t.term, if elided then st.lastParent else t.parentTerm, rec, JsTrim(t.value), TermArgs(t.termArgs),
        Undefined, Null, t.row, t.col, t.termValueName, t.childPropertyType, t.valid, t.isArgChild);
      (RunState(last, st.paramMap), Some(handed))
  }

  /** The state after the first k terms, and the terms handed on so far. */
  function RunUpTo(ts: seq<TermVal>, k: nat): (RunState, seq<TermVal>)
    requires k <= |ts|
  {
    if k == 0 then (START, [])
    else
      var prev := RunUpTo(ts, k - 1);
      var v := Visit(prev.0, ts[k - 1]);
      (v.0, prev.1 + (if v.1.Some? then [v.1.value] else []))
  }

  /** One more term: the state moves on by Visit, and what Visit hands on is appended. */
  lemma RunUpToStep(ts: seq<TermVal>, k: nat)
    requires k < |ts|
    ensures var prev := RunUpTo(ts, k); var v := Visit(prev.0, ts[k]);
      RunUpTo(ts, k + 1).0 == v.0 && RunUpTo(ts, k + 1).1 == prev.1 + (if v.1.Some? then [v.1.value] else [])
  {
  }

  /**
   * A term whose record name, after renaming, is "section" in any case is
   * swallowed and replaces the parameter map by its trimmed arguments; any
   * other term is handed on under that name and leaves the map alone.
   */
  lemma VisitSection(st: RunState, t: TermVal)
    ensures Visit(st, t).1.None? <==> Lower(RenamedRecord(st, t)) == "section"
    ensures Visit(st, t).1.None? ==> Visit(st, t).0.paramMap == SectionParams(TermArgs(t.termArgs))
    ensures Visit(st, t).1.Some? ==>
      Visit(st, t).0.paramMap == st.paramMap && Visit(st, t).1.value.recordTerm == RenamedRecord(st, t)
  {
  }

  /** An elided parent becomes the last parent, which stays as it was. */
  lemma VisitElided(st: RunState, t: TermVal)
    requires t.parentTerm == ELIDED_TERM && st.lastParent != ""
    ensures Visit(st, t).0.lastParent == st.lastParent
    ensures Visit(st, t).1.Some? ==> Visit(st, t).1.value.parentTerm == st.lastParent
  {
  }

  /** Any other term not flagged as an argument child makes its own record name, before renaming, the last parent. */
  lemma VisitSetsLastParent(st: RunState, t: TermVal)
    requires !(t.parentTerm == ELIDED_TERM && st.lastParent != "") && t.isArgChild != Some(true)
    ensures Visit(st, t).0.lastParent == t.recordTerm
    ensures Visit(st, t).1.Some? ==> Visit(st, t).1.value.parentTerm == t.parentTerm
  {
  }

  /**
   * Argument child i, after a section that named at least i + 1 arguments,
   * is handed on under the lower-cased argument name (unless that name is
   * "section"); since generateTerms never flags argument children, it also
   * becomes the last parent. (A record name spelled `<elided_term>` would
   * itself count as elided, hence the last requirement.)
   */
  lemma ChildRenamed(st: RunState, t: TermVal, i: nat, rowNum: nat, path: string)
    requires i < |t.termArgs| && Constructed(t)
    requires IsLower(t.recordTerm) && '.' !in t.recordTerm && t.recordTerm != "" && JsTrim(t.recordTerm) == t.recordTerm
    requires i in st.paramMap && Lower(st.paramMap[i]) != "section" && t.recordTerm != ELIDED_TERM
    ensures var v := Visit(st, ChildOf(t, i, rowNum, path));
      && v.1.Some? && v.1.value.recordTerm == st.paramMap[i] && v.1.value.parentTerm == t.recordTerm
      && v.0.lastParent == NatToString(i) && v.0.paramMap == st.paramMap
  {
    var c := ChildOf(t, i, rowNum, path);
    ChildShape(t, i, rowNum, path);
    JsParseIntRoundTrip(i);
    assert RenamedRecord(st, c) == st.paramMap[i];
    VisitSection(st, c);
    var nt := CloneOf(c);
    assert nt.parentTerm == t.recordTerm && nt.recordTerm == NatToString(i) && nt.isArgChild.None?;
  }

  /** What run hands on is never a section term, and never keeps a file name, which clone drops. */
  predicate HandedOn(t: TermVal)
  {
    Lower(t.recordTerm) != "section" && t.fileName == Null
  }

  predicate AllHandedOn(ts: seq<TermVal>)
  {
    forall j :: 0 <= j < |ts| ==> HandedOn(ts[j])
  }

  lemma AllHandedOnAppend(a: seq<TermVal>, b: seq<TermVal>)
    requires AllHandedOn(a) && AllHandedOn(b)
    ensures AllHandedOn(a + b)
  {
    forall j | 0 <= j < |a + b| ensures HandedOn((a + b)[j]) {
      if j >= |a| {
        assert (a + b)[j] == b[j - |a|];
      }
    }
  }

  lemma VisitHandsOn(st: RunState, t: TermVal)
    ensures Visit(st, t).1.Some? ==> HandedOn(Visit(st, t).1.value)
  {
  }

  /** Every term run hands on is HandedOn. */
  lemma {:induction false} RunHandsOn(ts: seq<TermVal>, k: nat)
    requires k <= |ts|
    ensures AllHandedOn(RunUpTo(ts, k).1)
  {
    if k > 0 {
      RunHandsOn(ts, k - 1);
      var prev := RunUpTo(ts, k - 1);
      var v := Visit(prev.0, ts[k - 1]);
      VisitHandsOn(prev.0, ts[k - 1]);
      var add := if v.1.Some? then [v.1.value] else [];
      assert AllHandedOn(add);
      AllHandedOnAppend(prev.1, add);
      assert RunUpTo(ts, k).1 == prev.1 + add;
    }
  }

  /** Run hands on at most one term per term generated. */
  lemma {:induction false} RunUpToLength(ts: seq<TermVal>, k: nat)
    requires k <= |ts|
    ensures |RunUpTo(ts, k).1| <= k
  {
    if k > 0 {
      RunUpToLength(ts, k - 1);
    }
  }

  /** The interpreter: the path it reads and the callback's output, the terms handed on. */
  class TermInterpreter {
    const path: string

    constructor(path: string)
      ensures this.path == path
    {
      this.path := path;
    }

    /** The callback run passes to generateTerms, on one term, with the variables it closes over. */
    static method OnTerm(g: Globals, term: JsTerm, lastParentTerm: string, paramMap: map<int, string>)
      returns (lastParentTerm': string, paramMap': map<int, string>, handed: JsTerm?)
      modifies g
      ensures handed != null ==> fresh(handed)
      ensures (RunState(lastParentTerm', paramMap'), if handed == null then None else Some(handed.props))
           == Visit(RunState(lastParentTerm, paramMap), old(term.props))
    {
      lastParentTerm', paramMap' := lastParentTerm, paramMap;
      var nt := term.Clone(g);
      if nt.props.parentTerm == ELIDED_TERM && lastParentTerm' != "" {
        nt.props := nt.props.(parentTerm := lastParentTerm');
      } else if nt.props.isArgChild != Some(true) {
        lastParentTerm' := nt.props.recordTerm;
      }
      var key := JsParseInt(term.props.recordTerm);
      if key.Some? && key.value in paramMap' {
        nt.props := nt.props.(recordTerm := paramMap'[key.value]);
      }
      if Lower(nt.props.recordTerm) == "section" {
        paramMap' := SectionParamMap(nt.props.termArgs);
        return lastParentTerm', paramMap', null;
      }
      handed := nt;
    }

    /** The loop that rebuilds `paramMap` from a section term's arguments. */
    static method SectionParamMap(args: seq<string>) returns (m: map<int, string>)
      ensures m == SectionParams(args)
    {
      m := map[];
      for i := 0 to |args|
        invariant m == map k | 0 <= k < i :: Lower(args[k])
      {
        m := m[i := Lower(args[i])];
      }
    }

    /** run(): the terms of the rows, through the callback; what it hands on is returned in order. */
    method Run(g: Globals, rows: seq<seq<string>>) returns (out: seq<JsTerm>)
      modifies g
      ensures var spec := RunUpTo(Generated(rows, path, |rows|), |Generated(rows, path, |rows|)|).1;
        |out| == |spec| && forall i :: 0 <= i < |out| ==> out[i].props == spec[i]
    {
      var ts := GenerateTerms(g, rows, path);
      out := RunTerms(g, ts, Generated(rows, path, |rows|));
    }

    /** The callback applied to the generated terms in order, with `lastParentTerm` starting at "root" and an empty `paramMap`. */
    static method RunTerms(g: Globals, ts: seq<JsTerm>, ghost gen: seq<TermVal>) returns (out: seq<JsTerm>)
      requires |ts| == |gen| && forall j :: 0 <= j < |ts| ==> ts[j].props == gen[j]
      modifies g
      ensures |out| == |RunUpTo(gen, |gen|).1|
      ensures forall i :: 0 <= i < |out| ==> out[i].props == RunUpTo(gen, |gen|).1[i]
    {
      var lastParentTerm := "root";
      var paramMap: map<int, string> := map[];
      out := [];
      ghost var spec: seq<TermVal> := [];
      for k := 0 to |ts|
        invariant RunUpTo(gen, k).0 == RunState(lastParentTerm, paramMap) && RunUpTo(gen, k).1 == spec
        invariant |out| == |spec| && forall j :: 0 <= j < |out| ==> out[j].props == spec[j]
      {
        var handed;
        ghost var st := RunState(lastParentTerm, paramMap);
        ghost var v := Visit(st, gen[k]);
        lastParentTerm, paramMap, handed := OnTerm(g, ts[k], lastParentTerm, paramMap);
        assert v.0 == RunState(lastParentTerm, paramMap);
        assert v.1.Some? == (handed != null);
        assert handed != null ==> v.1.value == handed.props;
        RunUpToStep(gen, k);
        if handed != null {
          spec := spec + [handed.props];
          out := out + [handed];
        }
        assert spec == RunUpTo(gen, k + 1).1;
      }
    }
  }
}
