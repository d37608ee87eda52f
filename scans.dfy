// Scans over a sequence in which each step may raise: the first error
// stops the scan, as a Python exception leaves a for-loop.
module Scans {
  import opened Wrappers

  /**
   * The elements of `xs` that pass `f`, in order; the first test that
   * raises stops the scan with its error.
   */
  function FilterOk<T>(xs: seq<T>, f: T -> Result<bool>): (r: Result<seq<T>>)
    ensures r.Ok? ==> |r.value| <= |xs|
  {
    if xs == [] then Ok([])
    else
      var here :- f(xs[0]);
      var rest :- FilterOk(xs[1..], f);
      Ok(if here then [xs[0]] + rest else rest)
  }

  /** Only elements of `xs` that pass the test are kept. */
  lemma {:induction false} FilterOkSound<T>(xs: seq<T>, f: T -> Result<bool>)
    requires FilterOk(xs, f).Ok?
    ensures forall x :: x in FilterOk(xs, f).value ==> x in xs && f(x) == Ok(true)
  {
    if xs != [] {
      FilterOkSound(xs[1..], f);
    }
  }

  /** When no element passes the test, a scan that succeeds keeps nothing. */
  lemma {:induction false} FilterOkNone<T>(xs: seq<T>, f: T -> Result<bool>)
    requires FilterOk(xs, f).Ok? && forall x :: x in xs ==> f(x) != Ok(true)
    ensures FilterOk(xs, f).value == []
  {
    if xs != [] {
      assert xs[0] in xs;
      assert forall x :: x in xs[1..] ==> x in xs;
      FilterOkNone(xs[1..], f);
    }
  }

  /** A scan that succeeds ran every test without error. */
  lemma {:induction false} FilterOkAllOk<T>(xs: seq<T>, f: T -> Result<bool>, x: T)
    requires FilterOk(xs, f).Ok? && x in xs
    ensures f(x).Ok?
  {
    if xs[0] != x {
      assert x in xs[1..];
      FilterOkAllOk(xs[1..], f, x);
    }
  }

  /** No element that passes the test is missed. */
  lemma {:induction false} FilterOkComplete<T>(xs: seq<T>, f: T -> Result<bool>, x: T)
    requires FilterOk(xs, f).Ok? && x in xs && f(x) == Ok(true)
    ensures x in FilterOk(xs, f).value
  {
    if xs[0] != x {
      assert x in xs[1..];
      FilterOkComplete(xs[1..], f, x);
    }
  }

  /** The scan keeps the order: the matches among `a`, then those among `b`. */
  lemma {:induction false} FilterOkAppend<T>(a: seq<T>, b: seq<T>, f: T -> Result<bool>)
    requires FilterOk(a, f).Ok? && FilterOk(b, f).Ok?
    ensures FilterOk(a + b, f) == Ok(FilterOk(a, f).value + FilterOk(b, f).value)
  {
    if a == [] {
      assert a + b == b;
      assert FilterOk(a, f).value + FilterOk(b, f).value == FilterOk(b, f).value;
    } else {
      assert (a + b)[1..] == a[1..] + b;
      assert (a + b)[0] == a[0];
      FilterOkAppend(a[1..], b, f);
      var x, y := FilterOk(a[1..], f).value, FilterOk(b, f).value;
      if f(a[0]).value {
        assert [a[0]] + (x + y) == ([a[0]] + x) + y;
      }
    }
  }

  lemma {:induction false} FilterOkSnoc<T>(a: seq<T>, x: T, f: T -> Result<bool>)
    requires FilterOk(a, f).Ok? && f(x).Ok?
    ensures FilterOk(a + [x], f) == Ok(FilterOk(a, f).value + (if f(x).value then [x] else []))
  {
    if a == [] {
      assert a + [x] == [x] && [x][1..] == [];
      assert FilterOk([x][1..], f) == Ok([]);
      assert [x] + [] == [x] && [] + [x] == [x];
    } else {
      assert (a + [x])[1..] == a[1..] + [x];
      assert (a + [x])[0] == a[0];
      FilterOkSnoc(a[1..], x, f);
      var rest, last := FilterOk(a[1..], f).value, if f(x).value then [x] else [];
      if f(a[0]).value {
        assert [a[0]] + (rest + last) == ([a[0]] + rest) + last;
      }
    }
  }

  /** A test that raises ends the scan with that error, whatever follows. */
  lemma {:induction false} FilterOkStops<T>(a: seq<T>, x: T, b: seq<T>, f: T -> Result<bool>)
    requires FilterOk(a, f).Ok? && f(x).Err?
    ensures FilterOk(a + [x] + b, f) == Err(f(x).error)
  {
    if a == [] {
      assert a + [x] + b == [x] + b;
      assert ([x] + b)[0] == x;
    } else {
      assert (a + [x] + b)[1..] == a[1..] + [x] + b;
      assert (a + [x] + b)[0] == a[0];
      FilterOkStops(a[1..], x, b, f);
    }
  }

  /** Each element's block of output, concatenated in order. */
  function ConcatOk<T, U>(xs: seq<T>, f: T -> Result<seq<U>>): (r: Result<seq<U>>)
    ensures xs == [] ==> r == Ok([])
  {
    if xs == [] then Ok([])
    else
      var here :- f(xs[0]);
      var rest :- ConcatOk(xs[1..], f);
      Ok(here + rest)
  }

  lemma ConcatOkSingle<T, U>(xs: seq<T>, f: T -> Result<seq<U>>)
    requires |xs| == 1
    ensures ConcatOk(xs, f) == f(xs[0])
  {
    assert xs[1..] == [];
    if f(xs[0]).Ok? {
      assert f(xs[0]).value + [] == f(xs[0]).value;
    }
  }

  /** The output of `a + b` is the output of `a` followed by that of `b`. */
  lemma {:induction false} ConcatOkAppend<T, U>(a: seq<T>, b: seq<T>, f: T -> Result<seq<U>>)
    requires ConcatOk(a, f).Ok? && ConcatOk(b, f).Ok?
    ensures ConcatOk(a + b, f) == Ok(ConcatOk(a, f).value + ConcatOk(b, f).value)
  {
    if a == [] {
      assert a + b == b;
      assert ConcatOk(a, f).value + ConcatOk(b, f).value == ConcatOk(b, f).value;
    } else {
      assert (a + b)[1..] == a[1..] + b;
      assert (a + b)[0] == a[0];
      ConcatOkAppend(a[1..], b, f);
      var h, x, y := f(a[0]).value, ConcatOk(a[1..], f).value, ConcatOk(b, f).value;
      assert h + (x + y) == (h + x) + y;
    }
  }

  /** One more element adds its block at the end, or ends the scan with its error. */
  lemma {:induction false} ConcatOkSnoc<T, U>(a: seq<T>, x: T, f: T -> Result<seq<U>>)
    requires ConcatOk(a, f).Ok?
    ensures ConcatOk(a + [x], f) == match f(x) case Ok(v) => Ok(ConcatOk(a, f).value + v) case Err(e) => Err(e)
  {
    if a == [] {
      assert a + [x] == [x];
      ConcatOkSingle([x], f);
      if f(x).Ok? {
        assert [] + f(x).value == f(x).value;
      }
    } else {
      assert (a + [x])[1..] == a[1..] + [x];
      assert (a + [x])[0] == a[0];
      ConcatOkSnoc(a[1..], x, f);
      if f(x).Ok? {
        var h, rest := f(a[0]).value, ConcatOk(a[1..], f).value;
        assert h + (rest + f(x).value) == (h + rest) + f(x).value;
      }
    }
  }

  /** A block that raises ends the scan with that error, whatever follows. */
  lemma {:induction false} ConcatOkStops<T, U>(a: seq<T>, b: seq<T>, f: T -> Result<seq<U>>)
    requires ConcatOk(a, f).Err?
    ensures ConcatOk(a + b, f) == ConcatOk(a, f)
  {
    assert (a + b)[1..] == a[1..] + b;
    assert (a + b)[0] == a[0];
    if f(a[0]).Ok? {
      ConcatOkStops(a[1..], b, f);
    }
  }

  /** ConcatOkSnoc and ConcatOkStops on the prefixes of one sequence, for a loop over it. */
  lemma ConcatOkPrefix<T, U>(xs: seq<T>, i: nat, f: T -> Result<seq<U>>)
    requires i < |xs| && ConcatOk(xs[..i], f).Ok?
    ensures ConcatOk(xs[..i + 1], f) == match f(xs[i]) case Ok(v) => Ok(ConcatOk(xs[..i], f).value + v) case Err(e) => Err(e)
    ensures f(xs[i]).Err? ==> ConcatOk(xs, f) == Err(f(xs[i]).error)
  {
    assert xs[..i + 1] == xs[..i] + [xs[i]];
    ConcatOkSnoc(xs[..i], xs[i], f);
    if f(xs[i]).Err? {
      assert xs[..i + 1] + xs[i + 1..] == xs;
      ConcatOkStops(xs[..i + 1], xs[i + 1..], f);
    }
  }

  /** The elements that pass `f` and those that fail it, each in order. */
  function PartitionOk<T>(xs: seq<T>, f: T -> Result<bool>): (r: Result<(seq<T>, seq<T>)>)
    ensures r.Ok? ==> multiset(r.value.0) + multiset(r.value.1) == multiset(xs)
  {
    if xs == [] then Ok(([], []))
    else
      var b :- f(xs[0]);
      var rest :- PartitionOk(xs[1..], f);
      assert xs == [xs[0]] + xs[1..];
      if b then Ok(([xs[0]] + rest.0, rest.1)) else Ok((rest.0, [xs[0]] + rest.1))
  }

  /** The first part holds elements that pass, the second elements that fail. */
  lemma {:induction false} PartitionOkIn<T>(xs: seq<T>, f: T -> Result<bool>)
    requires PartitionOk(xs, f).Ok?
    ensures forall x :: x in PartitionOk(xs, f).value.0 ==> x in xs && f(x) == Ok(true)
    ensures forall x :: x in PartitionOk(xs, f).value.1 ==> x in xs && f(x) == Ok(false)
  {
    if xs != [] {
      PartitionOkIn(xs[1..], f);
    }
  }

  /** The index of the last element of `xs` that passes `p`, if any (a later entry of a dict overwrites an earlier one). */
  function LastWhere<T>(xs: seq<T>, p: T -> bool): (r: Option<nat>)
    ensures r.None? <==> forall i :: 0 <= i < |xs| ==> !p(xs[i])
    ensures r.Some? ==> r.value < |xs| && p(xs[r.value]) && forall j :: r.value < j < |xs| ==> !p(xs[j])
    decreases |xs|
  {
    if xs == [] then None
    else if p(xs[|xs| - 1]) then Some(|xs| - 1)
    else
      var r := LastWhere(xs[..|xs| - 1], p);
      assert forall i :: 0 <= i < |xs| - 1 ==> xs[..|xs| - 1][i] == xs[i];
      r
  }
}
