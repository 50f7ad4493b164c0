/** The collector at the end of main: it reads every job's result, counts
    successes and failures, and adds up the original and converted sizes of
    the successful jobs. Results arrive in whatever order the workers finish,
    so the totals are proved not to depend on that order. */
module Aggregator {
  import opened Text
  import opened Records

  /** The successful results, in the order given. */
  function Successes(rs: seq<ConvertResult>): seq<ConvertResult> {
    if rs == [] then []
    else
      var last := rs[|rs| - 1];
      Successes(rs[..|rs| - 1]) + (if last.err.None? then [last] else [])
  }

  /** Which size of a result is added up. */
  datatype Measure = Original | Converted

  function Bytes(r: ConvertResult, m: Measure): nat {
    match m
    case Original => r.origBytes
    case Converted => r.convBytes
  }

  /** The sum of one size over a list of results. */
  function SumBytes(rs: seq<ConvertResult>, m: Measure): nat {
    if rs == [] then 0 else SumBytes(rs[..|rs| - 1], m) + Bytes(rs[|rs| - 1], m)
  }

  lemma SuccessesStep(rs: seq<ConvertResult>, i: nat)
    requires i < |rs|
    ensures Successes(rs[..i + 1]) == Successes(rs[..i]) + (if rs[i].err.None? then [rs[i]] else [])
  {
    assert rs[..i + 1][..i] == rs[..i];
  }

  lemma SumBytesSnoc(rs: seq<ConvertResult>, r: ConvertResult, m: Measure)
    ensures SumBytes(rs + [r], m) == SumBytes(rs, m) + Bytes(r, m)
  {
    assert (rs + [r])[..|rs|] == rs;
  }

  /** The collect loop: every received result is a success or a failure, and
      only the successes contribute to the totals. */
  method Collect(results: seq<ConvertResult>) returns (success: nat, fail: nat, totalOrig: int, totalConv: int)
    ensures success + fail == |results|
    ensures success == |Successes(results)|
    ensures totalOrig == SumBytes(Successes(results), Original)
    ensures totalConv == SumBytes(Successes(results), Converted)
  {
    success, fail, totalOrig, totalConv := 0, 0, 0, 0;
    for i := 0 to |results|
      invariant success + fail == i
      invariant success == |Successes(results[..i])|
      invariant totalOrig == SumBytes(Successes(results[..i]), Original)
      invariant totalConv == SumBytes(Successes(results[..i]), Converted)
    {
      var r := results[i];
      SuccessesStep(results, i);
      if r.err.Some? {
        assert Successes(results[..i]) + [] == Successes(results[..i]);
        fail := fail + 1;
      } else {
        SumBytesSnoc(Successes(results[..i]), r, Original);
        SumBytesSnoc(Successes(results[..i]), r, Converted);
        success := success + 1;
        totalOrig := totalOrig + r.origBytes;
        totalConv := totalConv + r.convBytes;
      }
    }
    assert results[..|results|] == results;
  }

  /** The successes are exactly the results without an error. */
  lemma {:induction false} SuccessesMembers(rs: seq<ConvertResult>)
    ensures forall r :: r in Successes(rs) <==> r in rs && r.err.None?
  {
    if rs != [] {
      SuccessesMembers(rs[..|rs| - 1]);
      assert rs == rs[..|rs| - 1] + [rs[|rs| - 1]];
    }
  }

  /** Each successful result occurs among the successes as often as among all
      results; a failed one does not occur. */
  lemma {:induction false} SuccessesMultiplicity(rs: seq<ConvertResult>, x: ConvertResult)
    ensures multiset(Successes(rs))[x] == if x.err.None? then multiset(rs)[x] else 0
  {
    if rs != [] {
      SuccessesMultiplicity(rs[..|rs| - 1], x);
      assert rs == rs[..|rs| - 1] + [rs[|rs| - 1]];
    }
  }

  lemma {:induction false} SumBytesAppend(a: seq<ConvertResult>, b: seq<ConvertResult>, m: Measure)
    ensures SumBytes(a + b, m) == SumBytes(a, m) + SumBytes(b, m)
    decreases |b|
  {
    if b == [] {
      assert a + b == a;
    } else {
      var b' := b[..|b| - 1];
      assert (a + b)[..|a + b| - 1] == a + b';
      SumBytesAppend(a, b', m);
    }
  }

  /** Taking one element out of a sequence takes it out of its multiset. */
  lemma RemoveAt<T>(s: seq<T>, i: nat)
    requires i < |s|
    ensures s == s[..i] + [s[i]] + s[i + 1..]
    ensures multiset(s[..i] + s[i + 1..]) == multiset(s) - multiset{s[i]}
  {
    assert s == s[..i] + [s[i]] + s[i + 1..];
  }

  lemma RemoveLast<T>(s: seq<T>)
    requires s != []
    ensures multiset(s[..|s| - 1]) == multiset(s) - multiset{s[|s| - 1]}
  {
    assert s == s[..|s| - 1] + [s[|s| - 1]];
  }

  /** The sum without the i-th result, plus that result. */
  lemma SumBytesRemoveAt(b: seq<ConvertResult>, i: nat, m: Measure)
    requires i < |b|
    ensures SumBytes(b, m) == SumBytes(b[..i] + b[i + 1..], m) + Bytes(b[i], m)
  {
    RemoveAt(b, i);
    SumBytesAppend(b[..i], [b[i]], m);
    SumBytesAppend(b[..i] + [b[i]], b[i + 1..], m);
    SumBytesAppend(b[..i], b[i + 1..], m);
  }

  /** A sum does not depend on the order of the results. */
  lemma {:induction false} SumBytesPermutation(a: seq<ConvertResult>, b: seq<ConvertResult>, m: Measure)
    requires multiset(a) == multiset(b)
    ensures SumBytes(a, m) == SumBytes(b, m)
    decreases |a|
  {
    if a != [] {
      var x, a' := a[|a| - 1], a[..|a| - 1];
      RemoveLast(a);
      assert x in multiset(b);
      var i :| 0 <= i < |b| && b[i] == x;
      var b' := b[..i] + b[i + 1..];
      RemoveAt(b, i);
      SumBytesPermutation(a', b', m);
      SumBytesRemoveAt(b, i, m);
      assert SumBytes(a, m) == SumBytes(a', m) + Bytes(x, m);
    } else {
      assert |multiset(b)| == 0;
    }
  }

  /** Reordering the results leaves the counts and both totals unchanged:
      the summary does not depend on which worker finished first. */
  lemma CollectOrderIndependent(a: seq<ConvertResult>, b: seq<ConvertResult>, m: Measure)
    requires multiset(a) == multiset(b)
    ensures |Successes(a)| == |Successes(b)|
    ensures |a| - |Successes(a)| == |b| - |Successes(b)|
    ensures SumBytes(Successes(a), m) == SumBytes(Successes(b), m)
  {
    forall x ensures multiset(Successes(a))[x] == multiset(Successes(b))[x] {
      SuccessesMultiplicity(a, x);
      SuccessesMultiplicity(b, x);
    }
    assert multiset(Successes(a)) == multiset(Successes(b));
    assert |multiset(Successes(a))| == |multiset(Successes(b))|;
    assert |multiset(a)| == |multiset(b)|;
    SumBytesPermutation(Successes(a), Successes(b), m);
  }

  /** Failed jobs report no converted size, so the converted total of the
      successes is the converted total of all results. */
  lemma {:induction false} FailuresAddNothing(rs: seq<ConvertResult>)
    requires forall k :: 0 <= k < |rs| && rs[k].err.Some? ==> rs[k].convBytes == 0
    ensures SumBytes(Successes(rs), Converted) == SumBytes(rs, Converted)
  {
    if rs != [] {
      var last := rs[|rs| - 1];
      FailuresAddNothing(rs[..|rs| - 1]);
      if last.err.None? {
        SumBytesSnoc(Successes(rs[..|rs| - 1]), last, Converted);
      } else {
        assert Successes(rs[..|rs| - 1]) + [] == Successes(rs[..|rs| - 1]);
      }
    }
  }

  /** reductionPercent over the reals: 0 for an empty original, otherwise
      the saved share of the original size in percent. */
  function ReductionPercent(orig: int, conv: int): (p: real)
    ensures orig == 0 ==> p == 0.0
    ensures orig > 0 && conv == orig ==> p == 0.0
    ensures orig > 0 && 0 <= conv <= orig ==> 0.0 <= p <= 100.0
    ensures orig > 0 && conv > orig ==> p < 0.0
  {
    if orig == 0 then 0.0
    else
      var q := conv as real / orig as real;
      assert q * orig as real == conv as real;
      (1.0 - q) * 100.0
  }
}
