// Object numbers of metatab/numbering.py: the base-62 encoding of a
// number, the dataset part padded to the width of its assignment class,
// the revision part, the printed DatasetNumber and TopNumber, and the
// Constant holder that refuses to rebind a name.
module Numbering {
  import opened Wrappers

  const DIGITS: string := "0123456789"
  const LOWERS: string := "abcdefghijklmnopqrstuvwxyz"
  const UPPERS: string := "ABCDEFGHIJKLMNOPQRSTUVWXYZ"
  /** base62_encode's alphabet: digits, then lower-case, then upper-case letters. */
  const ALPHABET: string := DIGITS + LOWERS + UPPERS
  const BASE: nat := 62

  // ---------------------------------------------------------------------
  // Base 62

  /** The alphabet's character for digit `d`, by character ranges. */
  function Digit62(d: nat): (c: char)
    requires d < BASE
  {
    if d < 10 then ('0' as int + d) as char
    else if d < 36 then ('a' as int + (d - 10)) as char
    else ('A' as int + (d - 36)) as char
  }

  /** The digit a character of the alphabet stands for. */
  function Value62(c: char): Option<nat>
  {
    if '0' <= c <= '9' then Some(c as int - '0' as int)
    else if 'a' <= c <= 'z' then Some(c as int - 'a' as int + 10)
    else if 'A' <= c <= 'Z' then Some(c as int - 'A' as int + 36)
    else None
  }

  lemma AlphabetIsDigits()
    ensures |ALPHABET| == BASE
    ensures forall d :: 0 <= d < BASE ==> ALPHABET[d] == Digit62(d)
  {
    assert forall d :: 0 <= d < |DIGITS| ==> DIGITS[d] as int == '0' as int + d;
    assert forall d :: 0 <= d < |LOWERS| ==> LOWERS[d] as int == 'a' as int + d;
    assert forall d :: 0 <= d < |UPPERS| ==> UPPERS[d] as int == 'A' as int + d;
    forall d | 0 <= d < BASE ensures ALPHABET[d] == Digit62(d) {
      if d < 10 {
        assert ALPHABET[d] == DIGITS[d];
      } else if d < 36 {
        assert ALPHABET[d] == LOWERS[d - 10];
      } else {
        assert ALPHABET[d] == UPPERS[d - 36];
      }
    }
  }

  /** Every digit reads back as itself. */
  lemma ValueOfDigit(d: nat)
    requires d < BASE
    ensures Value62(Digit62(d)) == Some(d)
  {
  }

  /** The characters of a string all belong to the alphabet. */
  predicate InAlphabet(s: string)
  {
    forall i :: 0 <= i < |s| ==> Value62(s[i]).Some?
  }

  /** The digits of `n`, most significant first; none for 0. */
  function Digits(n: nat): (r: string)
    ensures n > 0 ==> |r| > 0
    decreases n
  {
    if n == 0 then [] else Digits(n / BASE) + [ALPHABET[n % BASE]]
  }

  /**
   * base62_encode: "0" for zero, the digits otherwise. It uses only the
   * alphabet, has no leading zero unless it is "0", and reads back as the
   * number.
   */
  function Encode(num: nat): (r: string)
    ensures InAlphabet(r) && Decode(r) == num
    ensures num == 0 <==> r == "0"
    ensures num > 0 ==> r[0] != '0'
  {
    DecodeDigits(num);
    if num == 0 then [ALPHABET[0]]
    else
      DigitsNoLeadingZero(num);
      Digits(num)
  }

  /** A string of alphabet characters read in base 62, most significant first. */
  function Decode(s: string): (n: nat)
    requires InAlphabet(s)
  {
    if s == [] then 0
    else Decode(s[..|s| - 1]) * BASE + Value62(s[|s| - 1]).value
  }

  lemma {:induction false} DigitsInAlphabet(n: nat)
    ensures InAlphabet(Digits(n))
    decreases n
  {
    if n > 0 {
      DigitsInAlphabet(n / BASE);
      AlphabetIsDigits();
      ValueOfDigit(n % BASE);
    }
  }

  /** The digits of `n` read back as `n`. */
  lemma {:induction false} DecodeDigits(n: nat)
    ensures InAlphabet(Digits(n)) && Decode(Digits(n)) == n
    decreases n
  {
    DigitsInAlphabet(n);
    if n > 0 {
      DecodeDigits(n / BASE);
      AlphabetIsDigits();
      ValueOfDigit(n % BASE);
      var s := Digits(n);
      assert s[..|s| - 1] == Digits(n / BASE);
    }
  }

  /** A positive number's encoding does not start with '0'. */
  lemma {:induction false} DigitsNoLeadingZero(n: nat)
    requires n > 0
    ensures Digits(n)[0] != '0'
    decreases n
  {
    AlphabetIsDigits();
    if n / BASE > 0 {
      DigitsNoLeadingZero(n / BASE);
    } else {
      assert Digits(n) == [ALPHABET[n % BASE]];
    }
  }

  /** The reversal of a list, as list.reverse leaves it. */
  function Reversed(s: string): (r: string)
    ensures |r| == |s|
  {
    if s == [] then [] else Reversed(s[1..]) + [s[0]]
  }

  /** base62_encode's loop: digits collected least significant first, then reversed. */
  method Base62Encode(num: nat) returns (r: string)
    ensures r == Encode(num)
  {
    if num == 0 {
      return [ALPHABET[0]];
    }
    var arr: string := [];
    var n: nat := num;
    while n != 0
      invariant Digits(num) == Digits(n) + Reversed(arr)
      decreases n
    {
      var rem := n % BASE;
      n := n / BASE;
      ReversedSnoc(arr, ALPHABET[rem]);
      arr := arr + [ALPHABET[rem]];
    }
    r := Reversed(arr);
  }

  lemma {:induction false} ReversedSnoc(s: string, c: char)
    ensures Reversed(s + [c]) == [c] + Reversed(s)
    decreases |s|
  {
    if s != [] {
      assert (s + [c])[1..] == s[1..] + [c];
      ReversedSnoc(s[1..], c);
    }
  }

  // ---------------------------------------------------------------------
  // Padding and the printed numbers

  /** str.rjust: `s` left-padded with `fill` to `width`; a longer string is left as it is. */
  function RJust(s: string, width: nat, fill: char): (r: string)
    ensures |r| == if |s| >= width then |s| else width
    ensures r[|r| - |s|..] == s
    ensures forall i :: 0 <= i < |r| - |s| ==> r[i] == fill
  {
    if |s| >= width then s else seq(width - |s|, _ => fill) + s
  }

  /** DLEN.DATASET_CLASSES: the dataset width of each assignment class; any other class is a KeyError. */
  function ClassWidth(assignmentClass: string): Result<nat>
  {
    if assignmentClass == "authoritative" then Ok(3)
    else if assignmentClass == "registered" then Ok(5)
    else if assignmentClass == "unregistered" then Ok(7)
    else if assignmentClass == "self" then Ok(9)
    else Err(KeyError)
  }

  /**
   * base62_encode on a dataset that may be None: None is not 0 and is
   * false, so the loop never runs and the encoding is empty.
   */
  function EncodeDataset(dataset: Option<nat>): (r: string)
    ensures dataset.None? <==> r == ""
  {
    match dataset
    case Some(n) => Encode(n)
    case None => ""
  }

  /** _ds_str: the encoded dataset padded with '0' to the class width. */
  function DsStr(dataset: Option<nat>, assignmentClass: string): (r: Result<string>)
    ensures ClassWidth(assignmentClass).Err? ==> r == Err(KeyError)
    ensures r.Ok? <==> ClassWidth(assignmentClass).Ok?
  {
    var w :- ClassWidth(assignmentClass);
    Ok(RJust(EncodeDataset(dataset), w, '0'))
  }

  /**
   * _rev_str: no revision (None or 0) prints nothing. A revision prints
   * through DLEN.REVISION, which Constant never defines, so it raises
   * AttributeError.
   */
  function RevStr(revision: Option<int>): (r: Result<string>)
    ensures revision.None? || revision == Some(0) <==> r == Ok("")
  {
    if revision.None? || revision == Some(0) then Ok("")
    else Err(AttributeError)
  }

  /**
   * str(DatasetNumber): 'd', the dataset part, the revision part. It prints
   * only for a known class and no revision, and is then 'd' followed by the
   * padded dataset; a known class with a revision raises AttributeError.
   */
  function DatasetNumberStr(dataset: Option<nat>, revision: Option<int>, assignmentClass: string): (r: Result<string>)
    ensures r.Ok? <==> ClassWidth(assignmentClass).Ok? && (revision.None? || revision == Some(0))
    ensures r.Ok? ==> r.value == "d" + DsStr(dataset, assignmentClass).value
    ensures ClassWidth(assignmentClass).Ok? && !(revision.None? || revision == Some(0)) ==> r == Err(AttributeError)
  {
    var ds :- DsStr(dataset, assignmentClass);
    var rev :- RevStr(revision);
    assert "d" + ds + rev == "d" + ds;
    Ok("d" + ds + rev)
  }

  /** A TopNumber: its number space must be at most one character. */
  datatype TopNumber = TopNumber(space: string, dataset: Option<nat>, revision: Option<int>, assignmentClass: string)

  function NewTopNumber(space: string, dataset: Option<nat>, revision: Option<int>, assignmentClass: string): (r: Result<TopNumber>)
    ensures r.Err? <==> |space| > 1
    ensures r.Ok? ==> r.value == TopNumber(space, dataset, revision, assignmentClass)
  {
    if |space| > 1 then Err(ValueError) else Ok(TopNumber(space, dataset, revision, assignmentClass))
  }

  /**
   * str(TopNumber): the space, the dataset part, the revision part. It
   * prints only for a known class and no revision, and is then the space
   * followed by the padded dataset.
   */
  function TopNumberStr(t: TopNumber): (r: Result<string>)
    ensures r.Ok? <==> ClassWidth(t.assignmentClass).Ok? && (t.revision.None? || t.revision == Some(0))
    ensures r.Ok? ==> r.value == t.space + DsStr(t.dataset, t.assignmentClass).value
  {
    var ds :- DsStr(t.dataset, t.assignmentClass);
    var rev :- RevStr(t.revision);
    assert t.space + ds + rev == t.space + ds;
    Ok(t.space + ds + rev)
  }

  lemma ClassWidths()
    ensures ClassWidth("authoritative") == Ok(3) && ClassWidth("registered") == Ok(5)
    ensures ClassWidth("unregistered") == Ok(7) && ClassWidth("self") == Ok(9)
  {
  }

  /** Leading zeros do not change the value read. */
  lemma {:induction false} DecodeLeadingZeros(k: nat, s: string)
    requires InAlphabet(s)
    ensures InAlphabet(seq(k, _ => '0') + s) && Decode(seq(k, _ => '0') + s) == Decode(s)
    decreases |s|
  {
    var z := seq(k, _ => '0');
    assert InAlphabet(z + s) by {
      forall i | 0 <= i < |z + s| ensures Value62((z + s)[i]).Some? {
        if i >= k { assert (z + s)[i] == s[i - k]; }
      }
    }
    if s == [] {
      assert z + s == z;
      ZerosDecode(k);
    } else {
      var init := s[..|s| - 1];
      assert InAlphabet(init) by { forall i | 0 <= i < |init| ensures Value62(init[i]).Some? { assert init[i] == s[i]; } }
      DecodeLeadingZeros(k, init);
      assert (z + s)[..|z + s| - 1] == z + init;
      assert (z + s)[|z + s| - 1] == s[|s| - 1];
    }
  }

  lemma {:induction false} ZerosDecode(k: nat)
    ensures InAlphabet(seq(k, _ => '0')) && Decode(seq(k, _ => '0')) == 0
    decreases k
  {
    if k > 0 {
      ZerosDecode(k - 1);
      assert seq(k, _ => '0')[..k - 1] == seq(k - 1, _ => '0');
    }
  }

  /**
   * _ds_str pads to the class width without truncating: the result is at
   * least that wide, ends with the encoding, and reads back as the dataset.
   */
  lemma DsStrPads(dataset: nat, assignmentClass: string)
    requires ClassWidth(assignmentClass).Ok?
    ensures var r := DsStr(Some(dataset), assignmentClass).value;
      && |r| >= ClassWidth(assignmentClass).value
      && |r| >= |Encode(dataset)|
      && r[|r| - |Encode(dataset)|..] == Encode(dataset)
      && InAlphabet(r) && Decode(r) == dataset
  {
    var e := Encode(dataset);
    var w := ClassWidth(assignmentClass).value;
    if |e| < w {
      DecodeLeadingZeros(w - |e|, e);
    }
  }

  /** A number without a dataset prints as zeros only: 'd000000000' for the class self. */
  lemma NoDatasetIsZeros(assignmentClass: string)
    requires ClassWidth(assignmentClass).Ok?
    ensures DsStr(None, assignmentClass) == Ok(seq(ClassWidth(assignmentClass).value, _ => '0'))
    ensures DatasetNumberStr(None, None, "self") == Ok("d000000000")
  {
    var w := ClassWidth(assignmentClass).value;
    assert RJust("", w, '0') == seq(w, _ => '0') + "";
    assert seq(w, _ => '0') + "" == seq(w, _ => '0');
    assert RJust("", 9, '0') == "000000000";
    assert "d" + "000000000" + "" == "d000000000";
  }

  // ---------------------------------------------------------------------
  // Constant

  /** Constant: attributes that can be bound once and never rebound. */
  class Constant<V> {
    var attrs: map<string, V>

    constructor ()
      ensures attrs == map[]
    {
      attrs := map[];
    }

    /** __setattr__: a name already bound raises ConstError and leaves every binding as it was. */
    method SetAttr(name: string, value: V) returns (r: Result<()>)
      modifies this
      ensures name in old(attrs) <==> r == Err(ConstError)
      ensures name in old(attrs) ==> attrs == old(attrs)
      ensures name !in old(attrs) ==> attrs == old(attrs)[name := value]
      ensures forall k :: k in old(attrs) ==> k in attrs && attrs[k] == old(attrs)[k]
    {
      if name in attrs {
        return Err(ConstError);
      }
      attrs := attrs[name := value];
      r := Ok(());
    }
  }
}
