// Helpers of metatab/cli/metapack.py: the column-name cleaner alt_col_name,
// the choice of a fresh resource name in add_single_resource, the term a
// URL's target format is filed under (classify_url) and type_map. Word
// characters are the ASCII letters, digits and '_'. The target format of a
// URL is worked out by a row-generator library outside this model, so
// classify_url's decision is stated over the format itself.
module MetapackCli {
  import opened Wrappers
  import opened Text
  import opened ODict

  // ---------------------------------------------------------------------
  // alt_col_name

  predicate IsWordChar(c: char)
  {
    IsLetter(c) || IsDigit(c) || c == '_'
  }

  /** `re.sub('[^\w_]', '_', s)`: every non-word character becomes '_'. */
  function MapNonWord(s: string): (r: string)
    ensures |r| == |s|
    ensures forall i :: 0 <= i < |s| ==> r[i] == (if IsWordChar(s[i]) then s[i] else '_')
  {
    if s == [] then [] else [if IsWordChar(s[0]) then s[0] else '_'] + MapNonWord(s[1..])
  }

  /** No two '_' in a row. */
  predicate NoDoubleUnderscore(s: string)
  {
    forall i :: 0 <= i < |s| - 1 ==> !(s[i] == '_' && s[i + 1] == '_')
  }

  /** Every character is a lower-case letter, a digit or '_'. */
  predicate LowerWord(s: string)
  {
    forall i :: 0 <= i < |s| ==> IsWordChar(s[i]) && !IsUpperChar(s[i])
  }

  /** `re.sub('_+', '_', s)`: each run of '_' becomes a single '_'. */
  function Collapse(s: string): (r: string)
    ensures NoDoubleUnderscore(r)
    ensures s != [] ==> r != [] && r[0] == s[0] && r[|r| - 1] == s[|s| - 1]
  {
    if |s| <= 1 then s
    else if s[0] == '_' && s[1] == '_' then Collapse(s[1..])
    else [s[0]] + Collapse(s[1..])
  }

  /** Collapsing keeps a string made of lower-case word characters so. */
  lemma {:induction false} CollapseLowerWord(s: string)
    requires LowerWord(s)
    ensures LowerWord(Collapse(s))
  {
    if |s| > 1 {
      assert LowerWord(s[1..]) by {
        forall i | 0 <= i < |s[1..]| ensures IsWordChar(s[1..][i]) && !IsUpperChar(s[1..][i]) {
          assert s[1..][i] == s[i + 1];
        }
      }
      CollapseLowerWord(s[1..]);
      if !(s[0] == '_' && s[1] == '_') {
        var c := Collapse(s[1..]);
        var r := [s[0]] + c;
        forall i | 0 <= i < |r| ensures IsWordChar(r[i]) && !IsUpperChar(r[i]) {
          if i > 0 {
            assert r[i] == c[i - 1];
          }
        }
      }
    }
  }

  /** Collapsing leaves a string without runs of '_' alone. */
  lemma {:induction false} CollapseNoRuns(s: string)
    requires NoDoubleUnderscore(s)
    ensures Collapse(s) == s
  {
    if |s| > 1 {
      assert NoDoubleUnderscore(s[1..]) by {
        forall i | 0 <= i < |s[1..]| - 1 ensures !(s[1..][i] == '_' && s[1..][i + 1] == '_') {
          assert s[1..][i] == s[i + 1] && s[1..][i + 1] == s[i + 2];
        }
      }
      CollapseNoRuns(s[1..]);
      assert !(s[0] == '_' && s[1] == '_') by {
        assert 0 < |s| - 1;
      }
      assert s == [s[0]] + s[1..];
    }
  }

  /** rstrip('_'). */
  function RStripUnderscore(s: string): (r: string)
    ensures r <= s
    ensures r == [] || r[|r| - 1] != '_'
    ensures (s == [] || s[|s| - 1] != '_') ==> r == s
  {
    RStripCharSpec(s, '_');
    RStripChar(s, '_')
  }

  /** The cleaning alt_col_name applies to a name that is present. */
  function CleanName(s: string): string
  {
    RStripUnderscore(Collapse(Lower(MapNonWord(s))))
  }

  /** alt_col_name(name, i): `col<i>` for a missing or empty name, the cleaned name otherwise. */
  function AltColName(name: Option<string>, i: int): (r: string)
    ensures name.None? || name.value == "" ==> r == "col" + IntToString(i)
  {
    if name.None? || name.value == "" then "col" + IntToString(i) else CleanName(name.value)
  }

  lemma LowerMapped(s: string)
    ensures LowerWord(Lower(MapNonWord(s)))
  {
    var m := MapNonWord(s);
    forall i | 0 <= i < |m| ensures IsWordChar(Lower(m)[i]) && !IsUpperChar(Lower(m)[i]) {
      assert Lower(m)[i] == LowerChar(m[i]);
    }
  }

  lemma StripKeeps(c: string)
    requires LowerWord(c) && NoDoubleUnderscore(c)
    ensures LowerWord(RStripUnderscore(c)) && NoDoubleUnderscore(RStripUnderscore(c))
  {
    var r := RStripUnderscore(c);
    assert forall j :: 0 <= j < |r| ==> r[j] == c[j];
  }

  /**
   * A cleaned name is made of lower-case letters, digits and single '_',
   * and never ends in '_': non-word characters became '_', the name was
   * lower-cased, runs of '_' collapsed and trailing '_' went.
   */
  lemma AltColShape(name: string, i: int)
    requires name != ""
    ensures var r := AltColName(Some(name), i);
      LowerWord(r) && NoDoubleUnderscore(r) && (r == [] || r[|r| - 1] != '_')
  {
    LowerMapped(name);
    CollapseLowerWord(Lower(MapNonWord(name)));
    StripKeeps(Collapse(Lower(MapNonWord(name))));
  }

  /** A name alt_col_name has already cleaned comes back unchanged. */
  lemma AltColIdempotent(name: string, i: int, j: int)
    requires name != "" && AltColName(Some(name), i) != ""
    ensures AltColName(Some(AltColName(Some(name), i)), j) == AltColName(Some(name), i)
  {
    var r := AltColName(Some(name), i);
    AltColShape(name, i);
    assert MapNonWord(r) == r;
    assert Lower(r) == r;
    CollapseNoRuns(r);
  }

  /** A name of nothing but '_' cleans to the empty string, not to `col<i>`. */
  lemma UnderscoresVanish(i: int)
    ensures AltColName(Some("__"), i) == ""
  {
    assert MapNonWord("__") == "__";
    assert Lower("__") == "__";
    assert Collapse("__") == "_";
  }

  // ---------------------------------------------------------------------
  // The fresh-name loop of add_single_resource

  /** `re.sub(r'-?\d+$', '', name)`: the trailing digits and one '-' before them go. */
  function StripNumber(name: string): (r: string)
    ensures r <= name
    ensures SuffixLen(name, IsDigit) == 0 ==> r == name
  {
    var n := SuffixLen(name, IsDigit);
    var p := name[..|name| - n];
    if n == 0 then name
    else if p != [] && p[|p| - 1] == '-' then p[..|p| - 1]
    else p
  }

  /** `"{}-{}".format(base, i)`. */
  function Candidate(base: string, i: nat): string
  {
    base + "-" + NatToString(i)
  }

  /** The loop from attempt `i` on: the first candidate not seen, or the last one tried, `-19`. */
  function DedupFrom(base: string, seen: set<string>, i: nat): (r: string)
    requires 1 <= i <= 19
    decreases 19 - i
  {
    var c := Candidate(base, i);
    if c !in seen || i == 19 then c else DedupFrom(base, seen, i + 1)
  }

  /** The name add_single_resource settles on. */
  function DedupName(name: string, seen: set<string>): (r: string)
    ensures name !in seen ==> r == name
  {
    if name !in seen then name else DedupFrom(StripNumber(name), seen, 1)
  }

  lemma {:induction false} DedupFromFirst(base: string, seen: set<string>, i: nat, k: nat)
    requires 1 <= i <= k <= 19
    requires Candidate(base, k) !in seen
    requires forall j :: i <= j < k ==> Candidate(base, j) in seen
    ensures DedupFrom(base, seen, i) == Candidate(base, k)
    decreases 19 - i
  {
    if i < k {
      assert Candidate(base, i) in seen;
      DedupFromFirst(base, seen, i + 1, k);
    }
  }

  lemma {:induction false} DedupFromAllSeen(base: string, seen: set<string>, i: nat)
    requires 1 <= i <= 19
    requires forall j :: i <= j <= 19 ==> Candidate(base, j) in seen
    ensures DedupFrom(base, seen, i) == Candidate(base, 19)
    decreases 19 - i
  {
    if i < 19 {
      assert Candidate(base, i) in seen;
      DedupFromAllSeen(base, seen, i + 1);
    }
  }

  /** A seen name becomes its base with the first unused suffix -1 ... -19. */
  lemma DedupFirstFree(name: string, seen: set<string>, k: nat)
    requires name in seen && 1 <= k <= 19
    requires Candidate(StripNumber(name), k) !in seen
    requires forall j :: 1 <= j < k ==> Candidate(StripNumber(name), j) in seen
    ensures DedupName(name, seen) == Candidate(StripNumber(name), k)
    ensures DedupName(name, seen) !in seen
  {
    DedupFromFirst(StripNumber(name), seen, 1, k);
  }

  /** When all nineteen suffixes are taken, the name chosen is `-19` though it is already seen. */
  lemma DedupExhausted(name: string, seen: set<string>)
    requires name in seen
    requires forall j :: 1 <= j <= 19 ==> Candidate(StripNumber(name), j) in seen
    ensures DedupName(name, seen) == Candidate(StripNumber(name), 19)
    ensures DedupName(name, seen) in seen
  {
    DedupFromAllSeen(StripNumber(name), seen, 1);
  }

  /** `name-2` is taken: its base is `name`, so `name-1` is tried first. */
  lemma StripNumberDash(base: string, i: nat)
    requires base == [] || !IsDigit(base[|base| - 1])
    ensures StripNumber(Candidate(base, i)) == base
  {
    var s := Candidate(base, i);
    var d := NatToString(i);
    assert s == (base + "-") + d;
    SuffixDigits(base + "-", d);
    assert s[..|s| - |d|] == base + "-";
  }

  lemma {:induction false} SuffixDigits(a: string, d: string)
    requires a != [] && !IsDigit(a[|a| - 1])
    requires forall j :: 0 <= j < |d| ==> IsDigit(d[j])
    ensures SuffixLen(a + d, IsDigit) == |d|
    decreases |d|
  {
    if d == [] {
      assert a + d == a;
    } else {
      assert (a + d)[..|a + d| - 1] == a + d[..|d| - 1];
      SuffixDigits(a, d[..|d| - 1]);
    }
  }

  /** `seen_names`, the set of names add_single_resource has handed out. */
  class SeenNames {
    var names: set<string>

    constructor(initial: set<string>)
      ensures names == initial
    {
      names := initial;
    }

    /** The name add_single_resource uses for a resource named `name`; it is added to the set. */
    method Choose(name: string) returns (chosen: string)
      modifies this
      ensures chosen == DedupName(name, old(names))
      ensures names == old(names) + {chosen}
    {
      chosen := name;
      if name in names {
        var base := StripNumber(name);
        var i := 1;
        chosen := Candidate(base, i);
        while i < 19 && chosen in names
          invariant 1 <= i <= 19 && chosen == Candidate(base, i) && names == old(names)
          invariant DedupFrom(base, names, i) == DedupFrom(base, names, 1)
          decreases 19 - i
        {
          i := i + 1;
          chosen := Candidate(base, i);
        }
      }
      names := names + {chosen};
    }
  }

  // ---------------------------------------------------------------------
  // classify_url and type_map

  const DATA_FORMATS: seq<string> := ["xls", "xlsx", "tsv", "csv"]
  const DOC_FORMATS: seq<string> := ["pdf", "doc", "docx", "html"]

  /** The term name classify_url gives a URL whose target format is `format`. */
  function ClassifyFormat(format: string): (r: string)
    ensures r == "DataFile" <==> format in DATA_FORMATS
    ensures r == "Documentation" <==> format in DOC_FORMATS
    ensures r == "Resource" <==> format !in DATA_FORMATS && format !in DOC_FORMATS
  {
    if format in DATA_FORMATS then "DataFile"
    else if format in DOC_FORMATS then "Documentation"
    else "Resource"
  }

  /** type_map under Python 3, where six's text type is str and its binary type bytes. */
  const TYPE_MAP: Dict<string, string> := [("float", "number"), ("int", "integer"), ("str", "string"), ("bytes", "text")]

  /** The Metatab data type for the name of a Python type, if it has one. */
  function TypeFor(typeName: string): Option<string>
  {
    Get(TYPE_MAP, typeName)
  }

  /** float, int, str and bytes map to number, integer, string and text. */
  lemma TypeMapEntries()
    ensures TypeFor("float") == Some("number") && TypeFor("int") == Some("integer")
    ensures TypeFor("str") == Some("string") && TypeFor("bytes") == Some("text")
  {
    var d1 := TYPE_MAP[1..];
    var d2 := d1[1..];
    var d3 := d2[1..];
    assert d3 == [("bytes", "text")];
    assert Get(d3, "bytes") == Some("text");
    assert Get(d2, "str") == Some("string") && Get(d2, "bytes") == Some("text");
    assert Get(d1, "int") == Some("integer");
  }

  /** No other type name has a type. */
  lemma TypeMapOthers(typeName: string)
    requires typeName != "float" && typeName != "int" && typeName != "str" && typeName != "bytes"
    ensures TypeFor(typeName) == None
  {
    forall i | 0 <= i < |TYPE_MAP| ensures TYPE_MAP[i].0 != typeName {}
  }
}
