// The policy decoding of metapack/cli/metaaws.py: split_bucket_name, and
// the two readers that turn an S3 bucket policy or an IAM user policy into
// a dict of 'R' and 'W' permissions. A policy is given as its list of
// statements; decoding it from JSON text is not part of this model. A
// statement keeps the three entries these readers look at: its Sid, its
// Principal's AWS entry and its Resource entry, each of the last two a list
// of strings or a single string, and absent when the statement lacks it.
module MetaAws {
  import opened Wrappers
  import opened Text
  import opened ODict

  const TOP_LEVEL_DIRS: seq<string> := ["public", "restricted", "private"]
  const READ_WRITE: seq<string> := ["Read", "Write"]
  const ARN_PREFIX: string := "arn:aws:s3:::"

  // ---------------------------------------------------------------------
  // split_bucket_name

  /**
   * split_bucket_name(bucket, default): at the first '/', the bucket and
   * the rest as its prefix; with no '/', the bucket and the default
   * (None stands for both Python's None and False, which give the same).
   */
  function SplitBucketName(bucket: string, default: Option<string>): (r: (string, Option<string>))
    ensures '/' in bucket ==> r.1.Some? && '/' !in r.0 && bucket == r.0 + "/" + r.1.value
    ensures '/' !in bucket ==> r == (bucket, default)
  {
    if '/' in bucket then
      var parts := SplitOnce(bucket, '/');
      (parts[0], Some(parts[1]))
    else (bucket, default)
  }

  /** Only the first '/' splits: the prefix keeps every later one. */
  lemma PrefixKeepsSlashes(b: string, p: string, default: Option<string>)
    requires '/' !in b
    ensures SplitBucketName(b + "/" + p, default) == (b, Some(p))
  {
    var s := b + "/" + p;
    var parts := SplitOnce(s, '/');
    assert s[|b|] == '/';
    assert |parts| == 2 && s == parts[0] + "/" + parts[1];
    var q := parts[0];
    assert forall i :: 0 <= i < |b| ==> s[i] == b[i];
    assert forall i :: 0 <= i < |q| ==> s[i] == q[i];
    assert s[|q|] == '/';
    assert |q| == |b|;
    assert q == s[..|b|] == b;
    assert parts[1] == s[|b| + 1..] == p;
  }

  // ---------------------------------------------------------------------
  // Statements

  datatype Aws = Many(items: seq<string>) | One(s: string)

  datatype Statement = Statement(sid: string, aws: Option<Aws>, resource: Option<Aws>)

  /** `{s['Sid']: s for s in policy['Statement']}`: a later statement with the same Sid wins. */
  function BySid(stmts: seq<Statement>): (r: Dict<string, Statement>)
  {
    FromPairs(SidPairs(stmts))
  }

  function SidPairs(stmts: seq<Statement>): (r: Dict<string, Statement>)
    ensures |r| == |stmts| && forall i :: 0 <= i < |stmts| ==> r[i] == (stmts[i].sid, stmts[i])
  {
    if stmts == [] then [] else [(stmts[0].sid, stmts[0])] + SidPairs(stmts[1..])
  }

  /** `principal.split('/').pop()`. */
  function UserName(principal: string): (r: string)
    ensures '/' !in r && EndsWith(principal, r)
  {
    var parts := Split(principal, '/');
    SplitJoin(principal, '/');
    JoinLast(parts, "/");
    parts[|parts| - 1]
  }

  lemma {:induction false} JoinLast(parts: seq<string>, sep: string)
    requires parts != []
    ensures EndsWith(Join(sep, parts), parts[|parts| - 1])
  {
    if |parts| > 1 {
      JoinLast(parts[1..], sep);
      var j := Join(sep, parts[1..]);
      var s := Join(sep, parts);
      assert s == (parts[0] + sep) + j;
      assert s[|s| - |j|..] == j;
      assert s[|s| - |parts[|parts| - 1]|..] == j[|j| - |parts[|parts| - 1]|..];
    }
  }

  /** The principals of a statement: a string stands for one principal. */
  function Principals(a: Aws): seq<string>
  {
    match a
    case Many(ps) => ps
    case One(p) => [p]
  }

  // ---------------------------------------------------------------------
  // bucket_policy_to_dict

  /** The Sid read for a permission and a top-level directory: `rw.title() + prefix.title()`. */
  function SidOf(rw: string, prefix: string): string
  {
    Title(rw) + Title(prefix)
  }

  /** `rw[0]`, the permission letter recorded for `rw`. */
  function Initial(rw: string): string
  {
    if rw == "" then "" else [rw[0]]
  }

  /** Every principal's user in `ps`, on `prefix`, with permission `perm`. */
  function Grants(ps: seq<string>, prefix: string, perm: string): (r: Dict<(string, string), string>)
    ensures |r| == |ps| && forall i :: 0 <= i < |ps| ==> r[i] == ((UserName(ps[i]), prefix), perm)
  {
    if ps == [] then [] else [((UserName(ps[0]), prefix), perm)] + Grants(ps[1..], prefix, perm)
  }

  /** What one Sid contributes: nothing when it is absent; a KeyError when it has no Principal AWS entry. */
  function BlockEntries(st: Dict<string, Statement>, rw: string, prefix: string): (r: Result<Dict<(string, string), string>>)
    ensures r.Err? ==> r.error == KeyError
    ensures r.Ok? ==> forall i :: 0 <= i < |r.value| ==> r.value[i].1 == Initial(rw) && r.value[i].0.1 == prefix
  {
    var sid := SidOf(rw, prefix);
    if !Has(st, sid) then Ok([])
    else
      var s := Get(st, sid).value;
      if s.aws.None? then Err(KeyError) else Ok(Grants(Principals(s.aws.value), prefix, Initial(rw)))
  }

  /** The assignments of the inner loop over the directories `dirs`, for one permission. */
  function InnerEntries(st: Dict<string, Statement>, rw: string, dirs: seq<string>): (r: Result<Dict<(string, string), string>>)
    ensures r.Err? ==> r.error == KeyError
    decreases |dirs|
  {
    if dirs == [] then Ok([])
    else
      var e :- InnerEntries(st, rw, dirs[..|dirs| - 1]);
      var b :- BlockEntries(st, rw, dirs[|dirs| - 1]);
      Ok(e + b)
  }

  /** The assignments of the outer loop over the permissions `rws`. */
  function OuterEntries(st: Dict<string, Statement>, rws: seq<string>, dirs: seq<string>): (r: Result<Dict<(string, string), string>>)
    ensures r.Err? ==> r.error == KeyError
    decreases |rws|
  {
    if rws == [] then Ok([])
    else
      var e :- OuterEntries(st, rws[..|rws| - 1], dirs);
      var b :- InnerEntries(st, rws[|rws| - 1], dirs);
      Ok(e + b)
  }

  /** bucket_policy_to_dict(policy): its only failure is the KeyError of a read or write Sid without a Principal AWS entry. */
  function BucketPolicySpec(stmts: seq<Statement>): (r: Result<Dict<(string, string), string>>)
    ensures r.Err? ==> r.error == KeyError
  {
    var e :- OuterEntries(BySid(stmts), READ_WRITE, TOP_LEVEL_DIRS);
    Ok(FromPairs(e))
  }

  /** A KeyError at some directory ends the inner loop with it. */
  lemma {:induction false} InnerErrStays(st: Dict<string, Statement>, rw: string, dirs: seq<string>, m: nat)
    requires m <= |dirs| && InnerEntries(st, rw, dirs[..m]).Err?
    ensures InnerEntries(st, rw, dirs).Err?
    decreases |dirs|
  {
    if m == |dirs| {
      assert dirs[..m] == dirs;
    } else {
      var d' := dirs[..|dirs| - 1];
      assert d'[..m] == dirs[..m];
      InnerErrStays(st, rw, d', m);
    }
  }

  /** A KeyError at some permission ends the outer loop with it. */
  lemma {:induction false} OuterErrStays(st: Dict<string, Statement>, rws: seq<string>, dirs: seq<string>, m: nat)
    requires m <= |rws| && OuterEntries(st, rws[..m], dirs).Err?
    ensures OuterEntries(st, rws, dirs).Err?
    decreases |rws|
  {
    if m == |rws| {
      assert rws[..m] == rws;
    } else {
      var r' := rws[..|rws| - 1];
      assert r'[..m] == rws[..m];
      OuterErrStays(st, r', dirs, m);
    }
  }

  /** The inner loop's assignments for the first `m` directories come first. */
  lemma {:induction false} InnerPrefix(st: Dict<string, Statement>, rw: string, dirs: seq<string>, m: nat)
    requires m <= |dirs| && InnerEntries(st, rw, dirs).Ok?
    ensures InnerEntries(st, rw, dirs[..m]).Ok?
    ensures InnerEntries(st, rw, dirs[..m]).value <= InnerEntries(st, rw, dirs).value
    decreases |dirs|
  {
    if m == |dirs| {
      assert dirs[..m] == dirs;
    } else {
      var d' := dirs[..|dirs| - 1];
      assert d'[..m] == dirs[..m];
      InnerPrefix(st, rw, d', m);
    }
  }

  lemma AppendAssoc<T>(a: seq<T>, b: seq<T>, c: seq<T>)
    ensures a + b + c == a + (b + c)
  {
  }

  lemma FromPairsSnoc<K, V>(e: Dict<K, V>, k: K, v: V)
    ensures FromPairs(e + [(k, v)]) == Put(FromPairs(e), k, v)
  {
    UpdateAppend([], e, [(k, v)]);
    assert Update(Put(FromPairs(e), k, v), []) == Put(FromPairs(e), k, v);
  }

  /** bucket_policy_to_dict: the Read then Write Sids of each top-level directory, each principal's user given that permission. */
  method BucketPolicyToDict(stmts: seq<Statement>) returns (r: Result<Dict<(string, string), string>>)
    ensures r == BucketPolicySpec(stmts)
  {
    var st := BySid(stmts);
    r := RwLoop(st, READ_WRITE, TOP_LEVEL_DIRS);
  }

  /** The outer loop over the permissions `rws`, each running the inner loop over `dirs`. */
  method RwLoop(st: Dict<string, Statement>, rws: seq<string>, dirs: seq<string>) returns (r: Result<Dict<(string, string), string>>)
    requires forall i :: 0 <= i < |rws| ==> rws[i] != ""
    ensures r == (var e :- OuterEntries(st, rws, dirs); Ok(FromPairs(e)))
  {
    var d: Dict<(string, string), string> := [];
    ghost var e: Dict<(string, string), string> := [];
    for i := 0 to |rws|
      invariant OuterEntries(st, rws[..i], dirs) == Ok(e) && d == FromPairs(e)
    {
      var rw := rws[i];
      assert rws[..i + 1][..i] == rws[..i] && rws[..i + 1][i] == rw;
      var inner := DirsLoop(st, rw, dirs, d, e);
      if inner.Err? {
        OuterErrStays(st, rws, dirs, i + 1);
        return Err(KeyError);
      }
      d := inner.value;
      e := e + InnerEntries(st, rw, dirs).value;
    }
    assert rws[..|rws|] == rws;
    r := Ok(d);
  }

  /** The inner loop over the directories `dirs`, for the permission `rw`. */
  method DirsLoop(st: Dict<string, Statement>, rw: string, dirs: seq<string>, d0: Dict<(string, string), string>, ghost e0: Dict<(string, string), string>)
    returns (r: Result<Dict<(string, string), string>>)
    requires rw != "" && d0 == FromPairs(e0)
    ensures r.Err? <==> InnerEntries(st, rw, dirs).Err?
    ensures r.Ok? ==> r.value == FromPairs(e0 + InnerEntries(st, rw, dirs).value)
  {
    var d := d0;
    ghost var eb: Dict<(string, string), string> := [];
    assert e0 + eb == e0;
    for j := 0 to |dirs|
      invariant InnerEntries(st, rw, dirs[..j]) == Ok(eb) && d == FromPairs(e0 + eb)
    {
      assert dirs[..j + 1][..j] == dirs[..j] && dirs[..j + 1][j] == dirs[j];
      var step := DirStep(st, rw, dirs[j], d, e0 + eb);
      if step.Err? {
        InnerErrStays(st, rw, dirs, j + 1);
        return Err(KeyError);
      }
      ghost var block := BlockEntries(st, rw, dirs[j]).value;
      AppendAssoc(e0, eb, block);
      d := step.value;
      eb := eb + block;
    }
    assert dirs[..|dirs|] == dirs;
    r := Ok(d);
  }

  /** One pass of the inner loop: the Sid of `rw` and `prefix`, when present, grants its principals. */
  method DirStep(st: Dict<string, Statement>, rw: string, prefix: string, d0: Dict<(string, string), string>, ghost e: Dict<(string, string), string>)
    returns (r: Result<Dict<(string, string), string>>)
    requires rw != "" && d0 == FromPairs(e)
    ensures r.Err? <==> BlockEntries(st, rw, prefix).Err?
    ensures r.Ok? ==> r.value == FromPairs(e + BlockEntries(st, rw, prefix).value)
  {
    var sid := Title(rw) + Title(prefix);
    if !Has(st, sid) {
      assert e + [] == e;
      return Ok(d0);
    }
    var s := Get(st, sid).value;
    if s.aws.None? {
      return Err(KeyError);
    }
    var d := GrantAll(d0, Principals(s.aws.value), prefix, [rw[0]], e);
    return Ok(d);
  }

  /** The innermost loop: each principal's user gets the permission, in order. */
  method GrantAll(d0: Dict<(string, string), string>, ps: seq<string>, prefix: string, perm: string, ghost e: Dict<(string, string), string>)
    returns (d: Dict<(string, string), string>)
    requires d0 == FromPairs(e)
    ensures d == FromPairs(e + Grants(ps, prefix, perm))
  {
    d := d0;
    ghost var g := Grants(ps, prefix, perm);
    assert e + g[..0] == e;
    for k := 0 to |ps|
      invariant d == FromPairs(e + g[..k])
    {
      var key := (UserName(ps[k]), prefix);
      assert g[k] == (key, perm);
      assert g[..k + 1] == g[..k] + [(key, perm)];
      assert e + g[..k + 1] == (e + g[..k]) + [(key, perm)];
      FromPairsSnoc(e + g[..k], key, perm);
      d := Put(d, key, perm);
    }
    assert g[..|ps|] == g;
  }

  /** A pair `(k, v)` of update(d, e) comes from `d` or from `e`. */
  lemma {:induction false} UpdateFrom<K, V>(d: Dict<K, V>, e: Dict<K, V>, k: K, v: V)
    requires Get(Update(d, e), k) == Some(v)
    ensures (k, v) in d || (k, v) in e
    decreases |e|
  {
    if e != [] {
      var d1 := Put(d, e[0].0, e[0].1);
      UpdateFrom(d1, e[1..], k, v);
      if (k, v) in d1 {
        var i :| 0 <= i < |d1| && d1[i] == (k, v);
        if i < |d| && d[i].0 != e[0].0 { assert d1[i] == d[i]; }
        else { assert (k, v) == e[0]; }
      } else {
        assert (k, v) in e;
      }
    }
  }

  /** A key of `e`, whose every value is `v`, ends with the value `v`. */
  lemma {:induction false} UpdateAllSame<K, V>(d: Dict<K, V>, e: Dict<K, V>, k: K, v: V)
    requires k in Keys(e) && forall i :: 0 <= i < |e| ==> e[i].1 == v
    ensures Get(Update(d, e), k) == Some(v)
    decreases |e|
  {
    var d1 := Put(d, e[0].0, e[0].1);
    assert Keys(e) == [e[0].0] + Keys(e[1..]);
    if k in Keys(e[1..]) {
      UpdateAllSame(d1, e[1..], k, v);
    } else {
      GetPutSame(d, k, v);
      UpdateOther(d1, e[1..], k);
    }
  }

  lemma {:induction false} InnerShape(st: Dict<string, Statement>, rw: string, dirs: seq<string>, p: ((string, string), string))
    requires InnerEntries(st, rw, dirs).Ok? && p in InnerEntries(st, rw, dirs).value
    ensures p.1 == Initial(rw) && p.0.1 in dirs
    decreases |dirs|
  {
    var d' := dirs[..|dirs| - 1];
    var e := InnerEntries(st, rw, d').value;
    var b := BlockEntries(st, rw, dirs[|dirs| - 1]).value;
    if p in e {
      InnerShape(st, rw, d', p);
    } else {
      var i :| 0 <= i < |b| && b[i] == p;
    }
  }

  lemma {:induction false} OuterShape(st: Dict<string, Statement>, rws: seq<string>, dirs: seq<string>, p: ((string, string), string))
    requires OuterEntries(st, rws, dirs).Ok? && p in OuterEntries(st, rws, dirs).value
    ensures p.0.1 in dirs && exists rw :: rw in rws && p.1 == Initial(rw)
    decreases |rws|
  {
    var r' := rws[..|rws| - 1];
    var rw := rws[|rws| - 1];
    var e := OuterEntries(st, r', dirs).value;
    if p in e {
      OuterShape(st, r', dirs, p);
      var w :| w in r' && p.1 == Initial(w);
      assert w in rws;
    } else {
      InnerShape(st, rw, dirs, p);
    }
  }

  /** Every permission bucket_policy_to_dict records is 'R' or 'W', on one of the three top-level directories. */
  lemma BucketValues(stmts: seq<Statement>, k: (string, string), v: string)
    requires BucketPolicySpec(stmts).Ok? && Get(BucketPolicySpec(stmts).value, k) == Some(v)
    ensures v == "R" || v == "W"
    ensures k.1 in TOP_LEVEL_DIRS
  {
    var st := BySid(stmts);
    var e := OuterEntries(st, READ_WRITE, TOP_LEVEL_DIRS).value;
    assert BucketPolicySpec(stmts).value == FromPairs(e);
    UpdateFrom([], e, k, v);
    OuterShape(st, READ_WRITE, TOP_LEVEL_DIRS, (k, v));
    var rw :| rw in READ_WRITE && v == Initial(rw);
    InitialIsLetter(rw);
  }

  lemma InitialIsLetter(rw: string)
    requires rw in READ_WRITE
    ensures Initial(rw) == "R" || Initial(rw) == "W"
  {
    assert rw == "Read" || rw == "Write";
  }

  /**
   * The Write Sids are read after the Read ones: a user the Write Sid of a
   * directory names ends with 'W' there, whatever the Read Sid says.
   */
  lemma WriteWins(stmts: seq<Statement>, j: nat, principal: string)
    requires j < |TOP_LEVEL_DIRS| && BucketPolicySpec(stmts).Ok?
    requires var sid := SidOf("Write", TOP_LEVEL_DIRS[j]);
      Has(BySid(stmts), sid) && Get(BySid(stmts), sid).value.aws.Some?
      && principal in Principals(Get(BySid(stmts), sid).value.aws.value)
    ensures Get(BucketPolicySpec(stmts).value, (UserName(principal), TOP_LEVEL_DIRS[j])) == Some("W")
  {
    assert READ_WRITE[|READ_WRITE| - 1] == "Write";
    OuterLastWins(BySid(stmts), READ_WRITE, TOP_LEVEL_DIRS, j, principal);
  }

  /** The permission the outer loop reaches last wins for every user its Sid names. */
  lemma OuterLastWins(st: Dict<string, Statement>, rws: seq<string>, dirs: seq<string>, j: nat, principal: string)
    requires rws != [] && j < |dirs| && OuterEntries(st, rws, dirs).Ok?
    requires var sid := SidOf(rws[|rws| - 1], dirs[j]);
      Has(st, sid) && Get(st, sid).value.aws.Some? && principal in Principals(Get(st, sid).value.aws.value)
    ensures Get(FromPairs(OuterEntries(st, rws, dirs).value), (UserName(principal), dirs[j])) == Some(Initial(rws[|rws| - 1]))
  {
    var rw := rws[|rws| - 1];
    var k := (UserName(principal), dirs[j]);
    var e1 := OuterEntries(st, rws[..|rws| - 1], dirs).value;
    var w := InnerEntries(st, rw, dirs).value;
    assert OuterEntries(st, rws, dirs).value == e1 + w;
    InnerHasKey(st, rw, dirs, j, principal);
    forall i | 0 <= i < |w| ensures w[i].1 == Initial(rw) {
      InnerShape(st, rw, dirs, w[i]);
    }
    UpdateAppend([], e1, w);
    UpdateAllSame(Update([], e1), w, k, Initial(rw));
  }

  /** The inner loop's last directory contributes its block after the others. */
  lemma InnerLast(st: Dict<string, Statement>, rw: string, dirs: seq<string>)
    requires dirs != [] && InnerEntries(st, rw, dirs).Ok?
    ensures InnerEntries(st, rw, dirs[..|dirs| - 1]).Ok? && BlockEntries(st, rw, dirs[|dirs| - 1]).Ok?
    ensures InnerEntries(st, rw, dirs).value
      == InnerEntries(st, rw, dirs[..|dirs| - 1]).value + BlockEntries(st, rw, dirs[|dirs| - 1]).value
  {
  }

  /** A Sid's block assigns, after `before`, every user it names. */
  lemma BlockHasKey(before: Dict<(string, string), string>, ps: seq<string>, prefix: string, perm: string, principal: string)
    returns (n: nat)
    requires principal in ps
    ensures n < |before + Grants(ps, prefix, perm)|
    ensures (before + Grants(ps, prefix, perm))[n].0 == (UserName(principal), prefix)
  {
    var i :| 0 <= i < |ps| && ps[i] == principal;
    var g := Grants(ps, prefix, perm);
    assert g[i].0 == (UserName(principal), prefix);
    n := |before| + i;
    assert (before + g)[n] == g[i];
  }

  /** The inner loop assigns every user the Sid of a directory names. */
  lemma InnerHasKey(st: Dict<string, Statement>, rw: string, dirs: seq<string>, j: nat, principal: string)
    requires j < |dirs| && InnerEntries(st, rw, dirs).Ok?
    requires var sid := SidOf(rw, dirs[j]);
      Has(st, sid) && Get(st, sid).value.aws.Some? && principal in Principals(Get(st, sid).value.aws.value)
    ensures (UserName(principal), dirs[j]) in Keys(InnerEntries(st, rw, dirs).value)
  {
    var dj := dirs[..j + 1];
    InnerPrefix(st, rw, dirs, j + 1);
    InnerLast(st, rw, dj);
    assert dj[..|dj| - 1] == dirs[..j] && dj[|dj| - 1] == dirs[j];
    var ps := Principals(Get(st, SidOf(rw, dirs[j])).value.aws.value);
    var n := BlockHasKey(InnerEntries(st, rw, dirs[..j]).value, ps, dirs[j], Initial(rw), principal);
    var w := InnerEntries(st, rw, dirs).value;
    assert w[n].0 == (UserName(principal), dirs[j]);
    assert Keys(w)[n] == w[n].0;
  }

  /** The six Sids bucket_policy_to_dict looks up. */
  ghost predicate IsReadSid(sid: string)
  {
    exists rw, dir :: rw in READ_WRITE && dir in TOP_LEVEL_DIRS && sid == SidOf(rw, dir)
  }

  lemma {:induction false} InnerSame(st: Dict<string, Statement>, st': Dict<string, Statement>, rw: string, dirs: seq<string>)
    requires forall dir :: dir in dirs ==> Get(st, SidOf(rw, dir)) == Get(st', SidOf(rw, dir))
    ensures InnerEntries(st, rw, dirs) == InnerEntries(st', rw, dirs)
    decreases |dirs|
  {
    if dirs != [] {
      var d' := dirs[..|dirs| - 1];
      assert forall dir :: dir in d' ==> dir in dirs;
      InnerSame(st, st', rw, d');
      assert dirs[|dirs| - 1] in dirs;
    }
  }

  lemma {:induction false} OuterSame(st: Dict<string, Statement>, st': Dict<string, Statement>, rws: seq<string>, dirs: seq<string>)
    requires forall rw, dir :: rw in rws && dir in dirs ==> Get(st, SidOf(rw, dir)) == Get(st', SidOf(rw, dir))
    ensures OuterEntries(st, rws, dirs) == OuterEntries(st', rws, dirs)
    decreases |rws|
  {
    if rws != [] {
      var r' := rws[..|rws| - 1];
      assert forall rw :: rw in r' ==> rw in rws;
      OuterSame(st, st', r', dirs);
      assert rws[|rws| - 1] in rws;
      InnerSame(st, st', rws[|rws| - 1], dirs);
    }
  }

  /** A statement whose Sid is none of the six changes nothing. */
  lemma OtherSidIgnored(stmts: seq<Statement>, s: Statement)
    requires !IsReadSid(s.sid)
    ensures BucketPolicySpec(stmts + [s]) == BucketPolicySpec(stmts)
  {
    var st := BySid(stmts);
    var st' := BySid(stmts + [s]);
    assert SidPairs(stmts + [s]) == SidPairs(stmts) + [(s.sid, s)];
    FromPairsSnoc(SidPairs(stmts), s.sid, s);
    forall rw, dir | rw in READ_WRITE && dir in TOP_LEVEL_DIRS
      ensures Get(st, SidOf(rw, dir)) == Get(st', SidOf(rw, dir))
    {
      GetPutOther(st, s.sid, s, SidOf(rw, dir));
    }
    OuterSame(st, st', READ_WRITE, TOP_LEVEL_DIRS);
  }

  // ---------------------------------------------------------------------
  // user_policy_to_dict

  /** get_statement(name): the first statement with that Sid. */
  function GetStatement(stmts: seq<Statement>, name: string): (r: Option<Statement>)
    ensures r.Some? ==> r.value in stmts && r.value.sid == name
    ensures r.None? ==> forall i :: 0 <= i < |stmts| ==> stmts[i].sid != name
  {
    if stmts == [] then None
    else if stmts[0].sid == name then Some(stmts[0])
    else GetStatement(stmts[1..], name)
  }

  /** What iterating over the entry gives: a list's items, or a string's characters. */
  function Items(a: Aws): (r: seq<string>)
  {
    match a
    case Many(xs) => xs
    case One(s) => seq(|s|, i requires 0 <= i < |s| => [s[i]])
  }

  // The key of one entry: the ARN prefix and every slash-star removed, split
  // at '/' into exactly a bucket and a prefix, the prefix stripped of slashes.
  function ResourceKey(r: string): (k: Result<(string, string)>)
    ensures k.Ok? ==> '/' !in k.value.0
  {
    var parts := Split(Replace(Replace(r, ARN_PREFIX, ""), "/*", ""), '/');
    if |parts| != 2 then Err(ValueError) else Ok((parts[0], StripChar(parts[1], '/')))
  }

  /** The assignments for the first entries `xs`, each with permission `perm`; a bad entry is a ValueError. */
  function KeyedItems(xs: seq<string>, perm: string): (r: Result<Dict<(string, string), string>>)
    ensures r.Ok? ==> |r.value| == |xs| && forall i :: 0 <= i < |xs| ==> r.value[i].1 == perm
    ensures r.Err? ==> r.error == ValueError
  {
    if xs == [] then Ok([])
    else
      var e :- KeyedItems(xs[..|xs| - 1], perm);
      var k :- ResourceKey(xs[|xs| - 1]);
      Ok(e + [(k, perm)])
  }

  lemma {:induction false} KeyedErrStays(xs: seq<string>, perm: string, n: nat)
    requires n <= |xs| && KeyedItems(xs[..n], perm).Err?
    ensures KeyedItems(xs, perm).Err?
    decreases |xs| - n
  {
    if n < |xs| {
      assert xs[..n + 1][..n] == xs[..n];
      KeyedErrStays(xs, perm, n + 1);
    } else {
      assert xs[..n] == xs;
    }
  }

  /**
   * user_policy_to_dict(doc): without a read statement it raises TypeError,
   * and otherwise only KeyError (a missing field) or ValueError (a
   * resource that does not split).
   */
  function UserPolicySpec(stmts: seq<Statement>): (r: Result<Dict<(string, string), string>>)
    ensures GetStatement(stmts, "read").None? <==> r == Err(TypeError)
    ensures r.Err? ==> r.error == TypeError || r.error == KeyError || r.error == ValueError
  {
    var read := GetStatement(stmts, "read");
    if read.None? then Err(TypeError)
    else if read.value.aws.None? then Err(KeyError)
    else
      var readEntries :- KeyedItems(Items(read.value.aws.value), "R");
      var write := GetStatement(stmts, "write");
      if write.None? then Ok(FromPairs(readEntries))
      else if write.value.resource.None? then Err(KeyError)
      else
        var writeEntries :- KeyedItems(Items(write.value.resource.value), "W");
        Ok(FromPairs(readEntries + writeEntries))
  }

  /** get_statement's loop. */
  method FindStatement(stmts: seq<Statement>, name: string) returns (r: Option<Statement>)
    ensures r == GetStatement(stmts, name)
  {
    for i := 0 to |stmts|
      invariant GetStatement(stmts, name) == GetStatement(stmts[i..], name)
    {
      assert stmts[i..][1..] == stmts[i + 1..];
      if stmts[i].sid == name {
        return Some(stmts[i]);
      }
    }
    return None;
  }

  /** One of the two loops: each entry's key gets `perm`, in order; a bad entry stops with a ValueError. */
  method AssignLoop(d0: Dict<(string, string), string>, xs: seq<string>, perm: string, ghost e0: Dict<(string, string), string>)
    returns (r: Result<Dict<(string, string), string>>)
    requires d0 == FromPairs(e0)
    ensures KeyedItems(xs, perm).Err? <==> r.Err?
    ensures r.Err? ==> r.error == ValueError
    ensures r.Ok? ==> r.value == FromPairs(e0 + KeyedItems(xs, perm).value)
  {
    var d := d0;
    ghost var e: Dict<(string, string), string> := [];
    assert e0 + e == e0;
    for i := 0 to |xs|
      invariant KeyedItems(xs[..i], perm) == Ok(e) && d == FromPairs(e0 + e)
    {
      assert xs[..i + 1][..i] == xs[..i];
      var k := ResourceKey(xs[i]);
      if k.Err? {
        KeyedErrStays(xs, perm, i + 1);
        return Err(ValueError);
      }
      FromPairsSnoc(e0 + e, k.value, perm);
      assert e0 + e + [(k.value, perm)] == e0 + (e + [(k.value, perm)]);
      d := Put(d, k.value, perm);
      e := e + [(k.value, perm)];
    }
    assert xs[..|xs|] == xs;
    r := Ok(d);
  }

  /** user_policy_to_dict: the read statement's principals get 'R', then the write statement's resources 'W'. */
  method UserPolicyToDict(stmts: seq<Statement>) returns (r: Result<Dict<(string, string), string>>)
    ensures r == UserPolicySpec(stmts)
  {
    var read := FindStatement(stmts, "read");
    if read.None? {
      return Err(TypeError);
    }
    if read.value.aws.None? {
      return Err(KeyError);
    }
    var rr := AssignLoop([], Items(read.value.aws.value), "R", []);
    if rr.Err? {
      return Err(ValueError);
    }
    ghost var readEntries := KeyedItems(Items(read.value.aws.value), "R").value;
    assert [] + readEntries == readEntries;
    var write := FindStatement(stmts, "write");
    if write.None? {
      // the TypeError of `None['Resource']` is caught: no write section
      return rr;
    }
    if write.value.resource.None? {
      return Err(KeyError);
    }
    var wr := AssignLoop(rr.value, Items(write.value.resource.value), "W", readEntries);
    if wr.Err? {
      return Err(ValueError);
    }
    r := wr;
  }

  /** A resource of the write statement ends with 'W', even when the read statement also names it. */
  lemma UserWriteWins(stmts: seq<Statement>, k: (string, string))
    requires UserPolicySpec(stmts).Ok?
    requires var w := GetStatement(stmts, "write");
      w.Some? && w.value.resource.Some? && k in Keys(KeyedItems(Items(w.value.resource.value), "W").value)
    ensures Get(UserPolicySpec(stmts).value, k) == Some("W")
  {
    var read := GetStatement(stmts, "read");
    var readEntries := KeyedItems(Items(read.value.aws.value), "R").value;
    var writeEntries := KeyedItems(Items(GetStatement(stmts, "write").value.resource.value), "W").value;
    UpdateAppend([], readEntries, writeEntries);
    UpdateAllSame(Update([], readEntries), writeEntries, k, "W");
  }

  /** Without a write statement the read permissions are all there is: every value is 'R'. */
  lemma NoWriteAllRead(stmts: seq<Statement>, k: (string, string), v: string)
    requires GetStatement(stmts, "write").None? && UserPolicySpec(stmts).Ok?
    requires Get(UserPolicySpec(stmts).value, k) == Some(v)
    ensures v == "R"
  {
    var read := GetStatement(stmts, "read");
    var readEntries := KeyedItems(Items(read.value.aws.value), "R").value;
    UpdateFrom([], readEntries, k, v);
    var i :| 0 <= i < |readEntries| && readEntries[i] == (k, v);
  }

  /** A policy without a read statement fails on `None['Principal']`. */
  lemma NoReadFails(stmts: seq<Statement>)
    requires forall i :: 0 <= i < |stmts| ==> stmts[i].sid != "read"
    ensures UserPolicySpec(stmts) == Err(TypeError)
  {
  }
}
