// Row generators of metatab/generate.py: a generator over rows already in
// hand, and the line-oriented text format, where each line becomes a row
// of at most two cells. Reading the text from a file, a stream or a URL is
// not part of this model: the text is given.
module Generate {
  import opened Wrappers
  import opened Text

  /** `path or '<none>'`. */
  function PathOr(path: string): (r: string)
    ensures path != "" ==> r == path
  {
    if path == "" then "<none>" else path
  }

  // ---------------------------------------------------------------------
  // MetatabRowGenerator

  datatype RowGen = RowGen(rows: seq<seq<string>>, path: string)

  /** MetatabRowGenerator(ref, path=...): the rows are kept as they are. */
  function NewRowGen(rows: seq<seq<string>>, path: string): (g: RowGen)
    ensures g.path == (if path == "" then "<none>" else path)
  {
    RowGen(rows, PathOr(path))
  }

  /** MetatabRowGenerator.__iter__. */
  function GenRows(g: RowGen): seq<seq<string>>
  {
    g.rows
  }

  /** The rows come out unchanged, in order. */
  lemma RowsUnchanged(rows: seq<seq<string>>, path: string)
    ensures GenRows(NewRowGen(rows, path)) == rows
    ensures NewRowGen(rows, "").path == "<none>"
  {
  }

  // ---------------------------------------------------------------------
  // TextRowGenerator

  /** The line boundaries of str.splitlines: LF, CR, VT, FF, the code points 0x1C-0x1E, NEL, LS and PS. */
  predicate IsLineBreak(c: char)
  {
    var k := c as int;
    k == 10 || k == 13 || k == 11 || k == 12 || (28 <= k <= 30) || k == 0x85 || k == 0x2028 || k == 0x2029
  }

  /** The index of the first line boundary in `s`, if any. */
  function FirstBreak(s: string): (r: Option<nat>)
    ensures r.Some? ==> r.value < |s| && IsLineBreak(s[r.value]) && forall j :: 0 <= j < r.value ==> !IsLineBreak(s[j])
    ensures r.None? ==> forall j :: 0 <= j < |s| ==> !IsLineBreak(s[j])
  {
    if s == [] then None
    else if IsLineBreak(s[0]) then Some(0)
    else
      match FirstBreak(s[1..])
      case None => None
      case Some(i) => Some(i + 1)
  }

  /** str.splitlines(): the lines without their boundaries; \r\n is one boundary; no empty last line for a final boundary. */
  function SplitLines(s: string): (r: seq<string>)
    ensures forall i, j :: 0 <= i < |r| && 0 <= j < |r[i]| ==> !IsLineBreak(r[i][j])
    decreases |s|
  {
    match FirstBreak(s)
    case None => if s == [] then [] else [s]
    case Some(i) =>
      var next := if s[i] as int == 13 && i + 1 < |s| && s[i + 1] as int == 10 then i + 2 else i + 1;
      [s[..i]] + SplitLines(s[next..])
  }

  predicate NoBreak(s: string)
  {
    forall j :: 0 <= j < |s| ==> !IsLineBreak(s[j])
  }

  lemma {:induction false} FirstBreakAt(a: string, c: char, b: string)
    requires NoBreak(a) && IsLineBreak(c)
    ensures FirstBreak(a + [c] + b) == Some(|a|)
    decreases |a|
  {
    var s := a + [c] + b;
    if a == [] {
      assert s[0] == c;
    } else {
      assert s[0] == a[0] && s[1..] == a[1..] + [c] + b;
      FirstBreakAt(a[1..], c, b);
    }
  }

  /** A line followed by a boundary, one character or CR LF, is the first line. */
  lemma SplitLinesCons(a: string, brk: string, b: string)
    requires NoBreak(a)
    requires brk == "\n" || brk == "\r" || brk == "\r\n"
    requires brk == "\r" ==> b == [] || b[0] != '\n'
    ensures SplitLines(a + brk + b) == [a] + SplitLines(b)
  {
    var s := a + brk + b;
    assert s == a + [brk[0]] + (brk[1..] + b);
    FirstBreakAt(a, brk[0], brk[1..] + b);
    assert s[..|a|] == a;
    assert s[|a| + |brk|..] == b;
  }

  /** Lines without boundaries joined by LF split back into the same lines, unless the last is empty. */
  lemma {:induction false} SplitJoinLines(lines: seq<string>)
    requires lines != [] && lines[|lines| - 1] != ""
    requires forall i :: 0 <= i < |lines| ==> NoBreak(lines[i])
    ensures SplitLines(Join("\n", lines)) == lines
    decreases |lines|
  {
    if |lines| == 1 {
      assert Join("\n", lines) == lines[0];
    } else {
      assert Join("\n", lines) == lines[0] + "\n" + Join("\n", lines[1..]);
      SplitLinesCons(lines[0], "\n", Join("\n", lines[1..]));
      SplitJoinLines(lines[1..]);
    }
  }

  datatype TextGen = TextGen(lines: seq<string>, path: string)

  /** TextRowGenerator(text, path=...): the text's lines. */
  function NewTextGen(text: string, path: string): (g: TextGen)
    ensures g.lines == SplitLines(text)
    ensures g.path == (if path == "" then "<none>" else path)
  {
    TextGen(SplitLines(text), PathOr(path))
  }

  /** `re.match(r'^\s*#', row)`: the first non-space character is '#'. */
  predicate IsCommentLine(line: string)
  {
    var t := StripLeft(line);
    t != [] && t[0] == '#'
  }

  predicate IsEq(c: char) { c == '=' }

  /** `re.sub(r'^=*', 'Section:', row)` for a line starting with "====". */
  function SectionPrefix(line: string): (r: string)
    ensures !StartsWith(line, "====") ==> r == line
  {
    if StartsWith(line, "====") then "Section:" + line[PrefixLen(line, IsEq)..] else line
  }

  function StripAll(parts: seq<string>): (r: seq<string>)
    ensures |r| == |parts| && forall i :: 0 <= i < |parts| ==> r[i] == Strip(parts[i])
  {
    if parts == [] then [] else [Strip(parts[0])] + StripAll(parts[1..])
  }

  /** One line's row: split at the first ':' only, each part stripped. */
  function TextRow(line: string): (r: seq<string>)
    ensures 1 <= |r| <= 2
  {
    StripAll(SplitOnce(SectionPrefix(line), ':'))
  }

  /** What one line yields: nothing for a comment, its row otherwise. */
  function LineRows(line: string): (r: seq<seq<string>>)
    ensures r == [] <==> IsCommentLine(line)
    ensures |r| <= 1
  {
    if IsCommentLine(line) then [] else [TextRow(line)]
  }

  /** TextRowGenerator.__iter__: the row of every line that is not a comment, in order. */
  function TextRows(lines: seq<string>): (r: seq<seq<string>>)
    ensures |r| <= |lines|
    ensures forall i :: 0 <= i < |r| ==> 1 <= |r[i]| <= 2
  {
    if lines == [] then [] else LineRows(lines[0]) + TextRows(lines[1..])
  }

  /** One row per non-comment line, in order: the rows of two runs of lines are the rows of each. */
  lemma {:induction false} TextRowsAppend(a: seq<string>, b: seq<string>)
    ensures TextRows(a + b) == TextRows(a) + TextRows(b)
    decreases |a|
  {
    if a != [] {
      assert (a + b)[0] == a[0] && (a + b)[1..] == a[1..] + b;
      assert TextRows(a + b) == LineRows(a[0]) + TextRows(a[1..] + b);
      TextRowsAppend(a[1..], b);
      assert TextRows(a) == LineRows(a[0]) + TextRows(a[1..]);
    } else {
      assert a + b == b;
    }
  }

  lemma TextRowsOne(line: string)
    ensures TextRows([line]) == if IsCommentLine(line) then [] else [TextRow(line)]
  {
    assert [line][1..] == [];
  }

  /** A comment line yields nothing; a blank line yields ['']. */
  lemma BlankAndComment(rest: string)
    ensures TextRows(["#" + rest]) == []
    ensures TextRows([""]) == [[""]]
  {
    assert IsCommentLine("#" + rest) by { assert StripLeft("#" + rest) == "#" + rest; }
    TextRowsOne("#" + rest);
    assert TextRow("") == [""] by {
      assert SplitOnce("", ':') == [""];
      StripEmpty();
    }
    assert !IsCommentLine("") by { assert StripLeft("") == ""; }
    TextRowsOne("");
  }

  lemma StripEmpty()
    ensures Strip("") == ""
  {
    assert StripLeft("") == "";
  }

  /** `Key: a:b` keeps the later colons in the value: only the first ':' splits. */
  lemma ValueKeepsColons(k: string, v: string)
    requires ':' !in k && !StartsWith(k + ":" + v, "====")
    ensures TextRow(k + ":" + v) == [Strip(k), Strip(v)]
  {
    var line := k + ":" + v;
    assert line[|k|] == ':';
    var parts := SplitOnce(line, ':');
    assert |parts| == 2;
    SplitOnceAt(k, v);
  }

  lemma SplitOnceAt(k: string, v: string)
    requires ':' !in k
    ensures SplitOnce(k + ":" + v, ':') == [k, v]
  {
    var line := k + ":" + v;
    assert line[..|k|] == k && line[|k| + 1..] == v;
    IndexOfAfter(k, v, ':');
  }

  /** A line of four or more '=' then a name is a section row: ==== Schema is Section: Schema. */
  lemma EqualsSection(n: nat, name: string)
    requires n >= 4 && ':' !in name && (name == [] || name[0] != '=')
    ensures TextRow(seq(n, _ => '=') + name) == ["Section", Strip(name)]
  {
    EqualsPrefix(n, name);
    SplitOnceAt("Section", name);
    assert Strip("Section") == "Section" by { StripPlain("Section"); }
  }

  lemma EqualsPrefix(n: nat, name: string)
    requires n >= 4 && (name == [] || name[0] != '=')
    ensures SectionPrefix(seq(n, _ => '=') + name) == "Section" + ":" + name
  {
    var line := seq(n, _ => '=') + name;
    assert line[..4] == "====";
    assert PrefixLen(line, IsEq) == n by { EqRun(n, name); }
    assert line[n..] == name;
  }

  lemma {:induction false} EqRun(n: nat, name: string)
    requires name == [] || name[0] != '='
    ensures PrefixLen(seq(n, _ => '=') + name, IsEq) == n
    decreases n
  {
    var line := seq(n, _ => '=') + name;
    if n > 0 {
      assert line[0] == '=' && line[1..] == seq(n - 1, _ => '=') + name;
      EqRun(n - 1, name);
    } else {
      assert line == name;
    }
  }
}
