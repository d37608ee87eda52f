// The string built-ins the Metatab code relies on, in the two languages it
// is written in: Python's str.strip/lower/split/title/replace and int(), and
// JavaScript's String.prototype.trim/toLowerCase and parseInt. Case mapping
// is modelled for ASCII letters only.
module Text {
  import opened Wrappers

  /** Python's str.isspace(), the set str.strip() removes by default. */
  predicate IsPySpace(c: char)
  {
    c == ' ' || ('\t' <= c <= '\r') || ('\U{1C}' <= c <= '\U{1F}') || c == '\U{85}' || c == '\U{A0}'
    || c == '\U{1680}' || ('\U{2000}' <= c <= '\U{200A}') || c == '\U{2028}' || c == '\U{2029}'
    || c == '\U{202F}' || c == '\U{205F}' || c == '\U{3000}'
  }

  /** The white space and line terminators String.prototype.trim removes. */
  predicate IsJsSpace(c: char)
  {
    c == ' ' || ('\t' <= c <= '\r') || c == '\U{A0}' || c == '\U{FEFF}'
    || c == '\U{1680}' || ('\U{2000}' <= c <= '\U{200A}') || c == '\U{2028}' || c == '\U{2029}'
    || c == '\U{202F}' || c == '\U{205F}' || c == '\U{3000}'
  }

  /** The length of the longest prefix of `s` whose characters satisfy `ok`. */
  function PrefixLen(s: string, ok: char -> bool): (n: nat)
    ensures n <= |s|
    ensures forall i :: 0 <= i < n ==> ok(s[i])
    ensures n == |s| || !ok(s[n])
  {
    if s == [] || !ok(s[0]) then 0 else 1 + PrefixLen(s[1..], ok)
  }

  /** The length of the longest suffix of `s` whose characters satisfy `ok`. */
  function SuffixLen(s: string, ok: char -> bool): (n: nat)
    ensures n <= |s|
    ensures forall i :: |s| - n <= i < |s| ==> ok(s[i])
    ensures n == |s| || !ok(s[|s| - n - 1])
  {
    if s == [] || !ok(s[|s| - 1]) then 0 else 1 + SuffixLen(s[..|s| - 1], ok)
  }

  /** str.lstrip(c) for a single character c. */
  function LStripChar(s: string, c: char): string
  {
    if |s| > 0 && s[0] == c then LStripChar(s[1..], c) else s
  }

  /** str.rstrip(c) for a single character c. */
  function RStripChar(s: string, c: char): string
  {
    if |s| > 0 && s[|s| - 1] == c then RStripChar(s[..|s| - 1], c) else s
  }

  /** str.strip(c) for a single character c. */
  function StripChar(s: string, c: char): string
  {
    RStripChar(LStripChar(s, c), c)
  }

  /** Python's str.lstrip() with no argument. */
  function StripLeft(s: string): string
  {
    if |s| > 0 && IsPySpace(s[0]) then StripLeft(s[1..]) else s
  }

  /** Python's str.rstrip() with no argument. */
  function StripRight(s: string): string
  {
    if |s| > 0 && IsPySpace(s[|s| - 1]) then StripRight(s[..|s| - 1]) else s
  }

  /** Python's str.strip() with no argument. */
  function Strip(s: string): string
  {
    StripRight(StripLeft(s))
  }

  /** The white space at the start of `s` removed, as trim() and the scan of parseInt do. */
  function JsTrimLeft(s: string): string
  {
    if |s| > 0 && IsJsSpace(s[0]) then JsTrimLeft(s[1..]) else s
  }

  /** The white space at the end of `s` removed. */
  function JsTrimRight(s: string): string
  {
    if |s| > 0 && IsJsSpace(s[|s| - 1]) then JsTrimRight(s[..|s| - 1]) else s
  }

  /** JavaScript's String.prototype.trim(). */
  function JsTrim(s: string): string
  {
    JsTrimRight(JsTrimLeft(s))
  }

  /** A Python string is falsy when empty; `s.strip()` is truthy when s is not blank. */
  predicate IsBlank(s: string) { Strip(s) == "" }

  function LowerChar(c: char): char
  {
    if 'A' <= c <= 'Z' then (c as int + 32) as char else c
  }

  function UpperChar(c: char): char
  {
    if 'a' <= c <= 'z' then (c as int - 32) as char else c
  }

  predicate IsUpperChar(c: char) { 'A' <= c <= 'Z' }

  predicate IsLetter(c: char) { 'A' <= c <= 'Z' || 'a' <= c <= 'z' }

  predicate IsDigit(c: char) { '0' <= c <= '9' }

  /** str.lower() / toLowerCase() on ASCII letters. */
  function Lower(s: string): (r: string)
    ensures |r| == |s|
    ensures forall i :: 0 <= i < |s| ==> r[i] == LowerChar(s[i])
  {
    seq(|s|, i requires 0 <= i < |s| => LowerChar(s[i]))
  }

  predicate IsLower(s: string)
  {
    forall i :: 0 <= i < |s| ==> !IsUpperChar(s[i])
  }

  /**
   * str.title(): a letter that follows a letter is lower-cased, any other
   * letter is upper-cased (`prevCased` says whether the character before `s`
   * was a letter).
   */
  function TitleFrom(s: string, prevCased: bool): (r: string)
    ensures |r| == |s|
  {
    if s == [] then []
    else
      var c := if prevCased then LowerChar(s[0]) else UpperChar(s[0]);
      [c] + TitleFrom(s[1..], IsLetter(s[0]))
  }

  function Title(s: string): string { TitleFrom(s, false) }

  predicate StartsWith(s: string, p: string)
  {
    |p| <= |s| && s[..|p|] == p
  }

  predicate EndsWith(s: string, p: string)
  {
    |p| <= |s| && s[|s| - |p|..] == p
  }

  /** The index of the first `c` in `s`. */
  function IndexOf(s: string, c: char): (r: Option<nat>)
    ensures r.Some? ==> r.value < |s|
  {
    if s == [] then None
    else if s[0] == c then Some(0)
    else
      var k := IndexOf(s[1..], c);
      if k.Some? then Some(k.value + 1) else None
  }

  /** IndexOf finds the first `c`, and finds none only when there is none. */
  lemma {:induction false} IndexOfSpec(s: string, c: char)
    ensures IndexOf(s, c).None? <==> c !in s
    ensures IndexOf(s, c).Some? ==> s[IndexOf(s, c).value] == c && c !in s[..IndexOf(s, c).value]
  {
    if s != [] && s[0] != c {
      IndexOfSpec(s[1..], c);
      assert s == [s[0]] + s[1..];
      if IndexOf(s, c).Some? {
        var k := IndexOf(s[1..], c).value;
        assert s[..k + 1] == [s[0]] + s[1..][..k];
      }
    }
  }

  /** The first piece of `s.split(c)`: everything before the first `c`. */
  function FirstPiece(s: string, c: char): string
  {
    match IndexOf(s, c)
    case None => s
    case Some(i) => s[..i]
  }

  /** The index of the last `c` in `s`. */
  function LastIndexOf(s: string, c: char): (r: Option<nat>)
    ensures r.None? <==> c !in s
    ensures r.Some? ==> r.value < |s| && s[r.value] == c && c !in s[r.value + 1..]
  {
    if s == [] then None
    else if s[|s| - 1] == c then Some(|s| - 1)
    else LastIndexOf(s[..|s| - 1], c)
  }

  /** Python's s.split(c) for a one-character separator. */
  function Split(s: string, c: char): (r: seq<string>)
    ensures |r| >= 1
    ensures forall i :: 0 <= i < |r| ==> c !in r[i]
  {
    if s == [] then [""]
    else if s[0] == c then [""] + Split(s[1..], c)
    else
      var rest := Split(s[1..], c);
      [[s[0]] + rest[0]] + rest[1..]
  }

  function Join(sep: string, parts: seq<string>): string
  {
    if parts == [] then ""
    else if |parts| == 1 then parts[0]
    else parts[0] + sep + Join(sep, parts[1..])
  }

  /** Python's s.split(c, 1): one element when `c` does not occur, two otherwise. */
  function SplitOnce(s: string, c: char): (r: seq<string>)
    ensures 1 <= |r| <= 2
    ensures |r| == 1 <==> c !in s
    ensures |r| == 1 ==> r[0] == s
    ensures |r| == 2 ==> s == r[0] + [c] + r[1] && c !in r[0]
  {
    IndexOfSpec(s, c);
    match IndexOf(s, c)
    case None => [s]
    case Some(i) =>
      assert s == s[..i] + [c] + s[i + 1..];
      [s[..i], s[i + 1..]]
  }

  /** Python's s.replace(pat, rep): every non-overlapping occurrence, left to right. */
  function Replace(s: string, pat: string, rep: string): string
    requires |pat| > 0
  {
    if |s| < |pat| then s
    else if s[..|pat|] == pat then rep + Replace(s[|pat|..], pat, rep)
    else [s[0]] + Replace(s[1..], pat, rep)
  }

  /** `pat` occurs in `s` at index `i`. */
  predicate OccursAt(s: string, pat: string, i: nat)
  {
    i + |pat| <= |s| && s[i..i + |pat|] == pat
  }

  /** replace leaves a string in which the pattern does not occur as it is. */
  lemma {:induction false} ReplaceAbsent(s: string, pat: string, rep: string)
    requires |pat| > 0 && forall i: nat :: !OccursAt(s, pat, i)
    ensures Replace(s, pat, rep) == s
    decreases |s|
  {
    if |s| >= |pat| {
      assert !OccursAt(s, pat, 0);
      forall i: nat ensures !OccursAt(s[1..], pat, i) {
        assert !OccursAt(s, pat, i + 1);
        if i + |pat| <= |s| - 1 {
          assert s[1..][i..i + |pat|] == s[i + 1..i + 1 + |pat|];
        }
      }
      ReplaceAbsent(s[1..], pat, rep);
      assert [s[0]] + s[1..] == s;
    }
  }

  function DigitChar(d: nat): char
    requires d < 10
  {
    ('0' as int + d) as char
  }

  /** str(n) for a non-negative int. */
  function NatToString(n: nat): (r: string)
    ensures |r| >= 1
    ensures forall i :: 0 <= i < |r| ==> IsDigit(r[i])
    decreases n
  {
    if n < 10 then [DigitChar(n)] else NatToString(n / 10) + [DigitChar(n % 10)]
  }

  /** str(i) for any int. */
  function IntToString(i: int): string
  {
    if i < 0 then "-" + NatToString(-i) else NatToString(i)
  }

  /** The value of a non-empty run of ASCII decimal digits. */
  function DigitsValue(s: string): nat
    requires forall i :: 0 <= i < |s| ==> IsDigit(s[i])
  {
    if s == [] then 0
    else
      var d := s[|s| - 1] as int - '0' as int;
      assert IsDigit(s[|s| - 1]);
      DigitsValue(s[..|s| - 1]) * 10 + d
  }

  predicate AllDigits(s: string)
  {
    |s| > 0 && forall i :: 0 <= i < |s| ==> IsDigit(s[i])
  }

  /**
   * Python's int(s) on a str: surrounding white space, an optional sign and
   * one or more decimal digits; anything else is a ValueError (None here).
   */
  function PyInt(s: string): (r: Option<int>)
  {
    var t := Strip(s);
    if |t| > 0 && (t[0] == '-' || t[0] == '+') then
      var body := t[1..];
      var v: int := if AllDigits(body) then DigitsValue(body) else 0;
      if AllDigits(body) then Some(if t[0] == '-' then -v else v)
      else None
    else if AllDigits(t) then Some(DigitsValue(t))
    else None
  }

  predicate IsHexDigit(c: char)
  {
    IsDigit(c) || 'a' <= c <= 'f' || 'A' <= c <= 'F'
  }

  function HexValue(c: char): nat
    requires IsHexDigit(c)
  {
    if IsDigit(c) then c as int - '0' as int
    else if 'a' <= c <= 'f' then c as int - 'a' as int + 10
    else c as int - 'A' as int + 10
  }

  function HexDigitsValue(s: string): nat
    requires forall i :: 0 <= i < |s| ==> IsHexDigit(s[i])
  {
    if s == [] then 0 else HexDigitsValue(s[..|s| - 1]) * 16 + HexValue(s[|s| - 1])
  }

  /**
   * JavaScript's parseInt(s) with no radix: leading white space, an optional
   * sign, then a "0x" prefix and hexadecimal digits, or decimal digits; the
   * longest such prefix is read and the rest ignored. NaN is None.
   */
  function JsParseInt(s: string): (r: Option<int>)
  {
    var t := JsTrimLeft(s);
    var neg := |t| > 0 && t[0] == '-';
    var u := if |t| > 0 && (t[0] == '-' || t[0] == '+') then t[1..] else t;
    if |u| >= 2 && u[0] == '0' && (u[1] == 'x' || u[1] == 'X') then
      var h := u[2..];
      var n := HexRun(h);
      if n == 0 then None
      else
        HexRunSpec(h);
        var v: int := HexDigitsValue(h[..n]);
        Some(if neg then -v else v)
    else
      var n := DecRun(u);
      if n == 0 then None
      else
        DecRunSpec(u);
        var v: int := DigitsValue(u[..n]);
        Some(if neg then -v else v)
  }

  /** The length of the run of decimal digits `s` starts with. */
  function DecRun(s: string): (n: nat)
    ensures n <= |s|
  {
    if s == [] || !IsDigit(s[0]) then 0 else 1 + DecRun(s[1..])
  }

  /** The length of the run of hexadecimal digits `s` starts with. */
  function HexRun(s: string): (n: nat)
    ensures n <= |s|
  {
    if s == [] || !IsHexDigit(s[0]) then 0 else 1 + HexRun(s[1..])
  }

  lemma {:induction false} DecRunSpec(s: string)
    ensures forall i :: 0 <= i < DecRun(s) ==> IsDigit(s[..DecRun(s)][i])
  {
    if s != [] && IsDigit(s[0]) {
      DecRunSpec(s[1..]);
      assert forall i :: 0 < i < DecRun(s) ==> s[..DecRun(s)][i] == s[1..][..DecRun(s[1..])][i - 1];
    }
  }

  lemma {:induction false} HexRunSpec(s: string)
    ensures forall i :: 0 <= i < HexRun(s) ==> IsHexDigit(s[..HexRun(s)][i])
  {
    if s != [] && IsHexDigit(s[0]) {
      HexRunSpec(s[1..]);
      assert forall i :: 0 < i < HexRun(s) ==> s[..HexRun(s)][i] == s[1..][..HexRun(s[1..])][i - 1];
    }
  }

  /** String(n) of a JavaScript number that holds the integer `i` (-0 prints as "0"). */
  function JsNumberToString(i: int): string { IntToString(i) }

  /** posixpath.dirname: everything before the last '/', trailing slashes removed. */
  function Dirname(p: string): string
  {
    match LastIndexOf(p, '/')
    case None => ""
    case Some(i) =>
      var head := p[..i + 1];
      if RStripChar(head, '/') == "" then head else RStripChar(head, '/')
  }

  /** posixpath.join(a, b) for two components. */
  function PathJoin(a: string, b: string): string
  {
    if StartsWith(b, "/") then b
    else if a == "" || EndsWith(a, "/") then a + b
    else a + "/" + b
  }

  // ---------------------------------------------------------------------
  // Properties of the built-ins that the model relies on.



  lemma {:induction false} LowerIdempotent(s: string)
    ensures Lower(Lower(s)) == Lower(s)
    ensures IsLower(Lower(s))
  {
    if s != [] { LowerIdempotent(s[1..]); }
  }

  lemma LowerOfLower(s: string)
    requires IsLower(s)
    ensures Lower(s) == s
  {
  }

  lemma {:induction false} SplitJoin(s: string, c: char)
    ensures Join([c], Split(s, c)) == s
  {
    if s == [] {
    } else if s[0] == c {
      SplitJoin(s[1..], c);
      var rest := Split(s[1..], c);
      if |rest| == 1 {
        assert Join([c], [""] + rest) == "" + [c] + rest[0];
      } else {
        assert ([""] + rest)[1..] == rest;
      }
    } else {
      SplitJoin(s[1..], c);
      var rest := Split(s[1..], c);
      var r := [[s[0]] + rest[0]] + rest[1..];
      if |rest| == 1 {
        assert r == [[s[0]] + rest[0]];
      } else {
        assert r[1..] == rest[1..];
        assert Join([c], rest) == rest[0] + [c] + Join([c], rest[1..]);
      }
    }
  }

  /** s.split(c) has exactly one more piece than `s` has occurrences of `c`. */
  lemma {:induction false} SplitCount(s: string, c: char)
    ensures |Split(s, c)| == multiset(s)[c] + 1
  {
    if s != [] {
      SplitCount(s[1..], c);
      assert s == [s[0]] + s[1..];
      assert multiset(s) == multiset([s[0]]) + multiset(s[1..]);
    }
  }

  lemma SplitNoSep(s: string, c: char)
    requires c !in s
    ensures Split(s, c) == [s]
  {
    SplitCount(s, c);
    assert multiset(s)[c] == 0;
    SplitJoin(s, c);
  }

  lemma {:induction false} NatToStringValue(n: nat)
    ensures DigitsValue(NatToString(n)) == n
  {
    if n >= 10 {
      NatToStringValue(n / 10);
      var s := NatToString(n);
      assert s[..|s| - 1] == NatToString(n / 10);
    }
  }

  /** int(str(i)) == i. */
  lemma IntRoundTrip(i: int)
    ensures PyInt(IntToString(i)) == Some(i)
  {
    if i < 0 {
      NegRoundTrip(-i);
    } else {
      NatRoundTrip(i);
    }
  }

  lemma NatRoundTrip(n: nat)
    ensures PyInt(NatToString(n)) == Some(n)
  {
    var s := NatToString(n);
    NatToStringValue(n);
    assert IsDigit(s[0]) && IsDigit(s[|s| - 1]);
    StripPlain(s);
    assert AllDigits(s);
  }

  lemma NegRoundTrip(n: nat)
    requires n > 0
    ensures PyInt("-" + NatToString(n)) == Some(-(n as int))
  {
    var d := NatToString(n);
    var s := "-" + d;
    NatToStringValue(n);
    assert AllDigits(d);
    assert s[0] == '-' && s[1..] == d;
    assert s[|s| - 1] == d[|d| - 1] && IsDigit(d[|d| - 1]);
    StripPlain(s);
    var t := Strip(s);
    assert t == s && |t| > 0 && t[0] == '-' && t[1..] == d;
  }

  lemma {:induction false} DigitsRun(s: string)
    requires forall i :: 0 <= i < |s| ==> IsDigit(s[i])
    ensures DecRun(s) == |s|
  {
    if s != [] {
      DigitsRun(s[1..]);
    }
  }

  /** parseInt(String(n)) == n for a non-negative integer. */
  lemma JsParseIntRoundTrip(n: nat)
    ensures JsParseInt(NatToString(n)) == Some(n)
  {
    var s := NatToString(n);
    NatToStringValue(n);
    assert !IsJsSpace(s[0]);
    assert JsTrimLeft(s) == s;
    DigitsRun(s);
    assert s[..|s|] == s;
    if |s| >= 2 { assert s[1] != 'x' && s[1] != 'X'; }
  }

  /** The first `c` in `a + [c] + b` is the one after `a` when `a` holds none. */
  lemma IndexOfAfter(a: string, b: string, c: char)
    requires c !in a
    ensures IndexOf(a + [c] + b, c) == Some(|a|)
  {
    var s := a + [c] + b;
    assert s[|a|] == c;
    IndexOfSpec(s, c);
  }

  /** The first piece of a string without `c` is the whole string; it never holds `c`. */
  lemma FirstPieceWhole(s: string, c: char)
    requires c !in s
    ensures FirstPiece(s, c) == s
  {
    IndexOfSpec(s, c);
  }

  lemma FirstPieceShape(s: string, c: char)
    ensures c !in FirstPiece(s, c)
  {
    IndexOfSpec(s, c);
  }

  /** Two pieces around one separator split back into those pieces. */
  lemma {:induction false} SplitPair(a: string, b: string, c: char)
    requires c !in a && c !in b
    ensures Split(a + [c] + b, c) == [a, b]
  {
    var s := a + [c] + b;
    if a == [] {
      assert s[0] == c && s[1..] == b;
      SplitNoSep(b, c);
    } else {
      assert s[0] == a[0] && s[1..] == a[1..] + [c] + b;
      SplitPair(a[1..], b, c);
      assert [a[0]] + a[1..] == a;
    }
  }

  /** Python's `<=` on str: code point order, a prefix before its extensions. */
  predicate StrLe(a: string, b: string)
  {
    if a == [] then true
    else if b == [] then false
    else if a[0] != b[0] then a[0] < b[0]
    else StrLe(a[1..], b[1..])
  }

  lemma {:induction false} StrLeTotal(a: string, b: string)
    ensures StrLe(a, b) || StrLe(b, a)
  {
    if a != [] && b != [] && a[0] == b[0] {
      StrLeTotal(a[1..], b[1..]);
    }
  }

  lemma {:induction false} StrLeTrans(a: string, b: string, c: string)
    requires StrLe(a, b) && StrLe(b, c)
    ensures StrLe(a, c)
  {
    if a != [] && b != [] && c != [] && a[0] == b[0] && b[0] == c[0] {
      StrLeTrans(a[1..], b[1..], c[1..]);
    }
  }




  /** JsTrimLeft drops a prefix, and what it keeps does not start with white space. */
  lemma {:induction false} JsTrimLeftSpec(s: string)
    ensures var l := JsTrimLeft(s); |l| <= |s| && l == s[|s| - |l|..] && (l == [] || !IsJsSpace(l[0]))
  {
    if |s| > 0 && IsJsSpace(s[0]) {
      JsTrimLeftSpec(s[1..]);
      var l := JsTrimLeft(s[1..]);
      assert s[1..][|s| - 1 - |l|..] == s[|s| - |l|..];
    }
  }

  /** JsTrimRight drops a suffix; what it keeps does not end with white space, and starts as `s` does. */
  lemma {:induction false} JsTrimRightSpec(s: string)
    ensures var r := JsTrimRight(s); |r| <= |s| && r == s[..|r|] && (r == [] || !IsJsSpace(r[|r| - 1]))
    ensures s != [] && !IsJsSpace(s[0]) ==> JsTrimRight(s) != []
  {
    if |s| > 0 && IsJsSpace(s[|s| - 1]) {
      JsTrimRightSpec(s[..|s| - 1]);
      var r := JsTrimRight(s[..|s| - 1]);
      assert s[..|s| - 1][..|r|] == s[..|r|];
    }
  }

  /** A JavaScript-trimmed string starts and ends with a character that is not white space. */
  lemma JsTrimEnds(s: string)
    ensures var t := JsTrim(s); t == [] || (!IsJsSpace(t[0]) && !IsJsSpace(t[|t| - 1]))
  {
    var l := JsTrimLeft(s);
    JsTrimLeftSpec(s);
    JsTrimRightSpec(l);
    var t := JsTrim(s);
    if t != [] {
      assert t[0] == l[0];
    }
  }

  /** A string that neither starts nor ends with white space is its own trim(). */
  lemma JsTrimPlain(s: string)
    requires s != [] ==> !IsJsSpace(s[0]) && !IsJsSpace(s[|s| - 1])
    ensures JsTrim(s) == s
  {
    assert JsTrimLeft(s) == s;
  }

  /** trim() twice trims nothing more. */
  lemma JsTrimIdempotent(s: string)
    ensures JsTrim(JsTrim(s)) == JsTrim(s)
  {
    JsTrimEnds(s);
    JsTrimPlain(JsTrim(s));
  }

  /** trim() adds no character. */
  lemma JsTrimKeepsOut(s: string, c: char)
    requires c !in s
    ensures c !in JsTrim(s)
  {
    var l := JsTrimLeft(s);
    JsTrimLeftSpec(s);
    JsTrimRightSpec(l);
    var t := JsTrim(s);
    assert forall k :: 0 <= k < |t| ==> t[k] == s[|s| - |l| + k];
  }

  /** Lower-casing a string JavaScript's trim() leaves alone leaves it trimmed. */
  lemma JsTrimLower(s: string)
    requires JsTrim(s) == s
    ensures JsTrim(Lower(s)) == Lower(s)
  {
    JsTrimEnds(s);
    JsTrimPlain(Lower(s));
  }

  /** StripLeft drops a prefix, and what it keeps does not start with white space. */
  lemma {:induction false} StripLeftSpec(s: string)
    ensures var l := StripLeft(s); |l| <= |s| && l == s[|s| - |l|..] && (l == [] || !IsPySpace(l[0]))
  {
    if |s| > 0 && IsPySpace(s[0]) {
      StripLeftSpec(s[1..]);
      var l := StripLeft(s[1..]);
      assert s[1..][|s| - 1 - |l|..] == s[|s| - |l|..];
    }
  }

  /** StripRight drops a suffix; what it keeps does not end with white space, and starts as `s` does. */
  lemma {:induction false} StripRightSpec(s: string)
    ensures var r := StripRight(s); |r| <= |s| && r == s[..|r|] && (r == [] || !IsPySpace(r[|r| - 1]))
    ensures s != [] && !IsPySpace(s[0]) ==> StripRight(s) != []
  {
    if |s| > 0 && IsPySpace(s[|s| - 1]) {
      StripRightSpec(s[..|s| - 1]);
      var r := StripRight(s[..|s| - 1]);
      assert s[..|s| - 1][..|r|] == s[..|r|];
    }
  }

  /** A stripped string starts and ends with a character that is not white space. */
  lemma StripEnds(s: string)
    ensures var t := Strip(s); t == [] || (!IsPySpace(t[0]) && !IsPySpace(t[|t| - 1]))
  {
    var l := StripLeft(s);
    StripLeftSpec(s);
    StripRightSpec(l);
    var t := Strip(s);
    if t != [] {
      assert t[0] == l[0];
    }
  }

  /** A string that neither starts nor ends with white space is its own strip(). */
  lemma StripPlain(s: string)
    requires s != [] ==> !IsPySpace(s[0]) && !IsPySpace(s[|s| - 1])
    ensures Strip(s) == s
  {
    assert StripLeft(s) == s;
  }

  /** strip() twice strips nothing more. */
  lemma StripIdempotent(s: string)
    ensures Strip(Strip(s)) == Strip(s)
  {
    StripEnds(s);
    StripPlain(Strip(s));
  }

  /** The decimal digits of a number: no '.', nothing to strip or trim, nothing to lower-case. */
  lemma NatToStringPlain(n: nat)
    ensures var d := NatToString(n);
      '.' !in d && Strip(d) == d && JsTrim(d) == d && IsLower(d) && Lower(d) == d
  {
    var d := NatToString(n);
    assert forall k :: 0 <= k < |d| ==> IsDigit(d[k]);
    StripPlain(d);
    JsTrimPlain(d);
    LowerOfLower(d);
  }

  /** rstrip(c) drops a suffix, and what it keeps does not end with c. */
  lemma {:induction false} RStripCharSpec(s: string, c: char)
    ensures var r := RStripChar(s, c); |r| <= |s| && r == s[..|r|] && (r == [] || r[|r| - 1] != c)
  {
    if |s| > 0 && s[|s| - 1] == c {
      RStripCharSpec(s[..|s| - 1], c);
      var r := RStripChar(s[..|s| - 1], c);
      assert s[..|s| - 1][..|r|] == s[..|r|];
    }
  }

  /** strip() adds no character. */
  lemma StripKeepsOut(s: string, c: char)
    requires c !in s
    ensures c !in Strip(s)
  {
    var l := StripLeft(s);
    StripLeftSpec(s);
    StripRightSpec(l);
    var t := Strip(s);
    assert forall k :: 0 <= k < |t| ==> t[k] == s[|s| - |l| + k];
  }

  /** Lower-casing a stripped string leaves it stripped. */
  lemma LowerStripped(s: string)
    requires Strip(s) == s
    ensures Strip(Lower(s)) == Lower(s)
  {
    StripEnds(s);
    StripPlain(Lower(s));
  }

  /** Splitting a joined list of pieces, none holding the separator, gives the pieces back. */
  lemma {:induction false} JoinSplit(parts: seq<string>, c: char)
    requires |parts| >= 1 && forall i :: 0 <= i < |parts| ==> c !in parts[i]
    ensures Split(Join([c], parts), c) == parts
  {
    if |parts| == 1 {
      SplitNoSep(parts[0], c);
    } else {
      JoinSplit(parts[1..], c);
      SplitPrefix(parts[0], Join([c], parts[1..]), c);
      assert Join([c], parts) == parts[0] + [c] + Join([c], parts[1..]);
    }
  }

  lemma {:induction false} SplitPrefix(a: string, b: string, c: char)
    requires c !in a
    ensures Split(a + [c] + b, c) == [a] + Split(b, c)
  {
    var s := a + [c] + b;
    if a == [] {
      assert s[0] == c && s[1..] == b;
    } else {
      assert s[0] == a[0] && s[1..] == a[1..] + [c] + b;
      SplitPrefix(a[1..], b, c);
      assert [a[0]] + a[1..] == a;
    }
  }

  lemma LowerConcat(a: string, b: string)
    ensures Lower(a + b) == Lower(a) + Lower(b)
  {
    assert forall i :: 0 <= i < |a + b| ==> Lower(a + b)[i] == (Lower(a) + Lower(b))[i];
  }

  /** A lower-cased string never starts with an upper-case letter. */
  lemma LowerNoUpperStart(s: string, p: string)
    requires p != [] && IsUpperChar(p[0])
    ensures !StartsWith(Lower(s), p)
  {
  }
}
