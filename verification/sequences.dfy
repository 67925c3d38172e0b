/** Order-insensitive facts about sequences that the aggregation relies on:
    taking a permutation apart, and keeping the present results of a partial
    map. */
module Sequences {
  import opened Text

  /** A permutation can be taken apart at any element: the first element of
      `a` sits somewhere in `b`, and the rests are again permutations. */
  lemma PermutationSplit<T>(a: seq<T>, b: seq<T>) returns (k: nat)
    requires multiset(a) == multiset(b) && |a| > 0
    ensures k < |b| && b[k] == a[0]
    ensures b == b[..k] + [a[0]] + b[k + 1..]
    ensures multiset(a[1..]) == multiset(b[..k] + b[k + 1..])
  {
    assert a[0] in multiset(b);
    k :| 0 <= k < |b| && b[k] == a[0];
    assert b == b[..k] + [a[0]] + b[k + 1..];
    assert a == [a[0]] + a[1..];
    calc {
      multiset(a[1..]);
      multiset(a) - multiset{a[0]};
      multiset(b) - multiset{a[0]};
      multiset(b[..k] + b[k + 1..] + [a[0]]) - multiset{a[0]};
      multiset(b[..k] + b[k + 1..]);
    }
  }

  function Present<B>(o: Option<B>): seq<B> {
    match o
    case Some(y) => [y]
    case None => []
  }

  /** The results `f` yields on the elements of `s`, in order, skipping the
      elements on which it yields none. */
  function FilterMap<A, B>(s: seq<A>, f: A -> Option<B>): seq<B> {
    if |s| == 0 then [] else Present(f(s[0])) + FilterMap(s[1..], f)
  }

  /** Every result kept comes from some element, and no more results are kept
      than there are elements. */
  lemma {:induction false} FilterMapFrom<A, B>(s: seq<A>, f: A -> Option<B>)
    ensures |FilterMap(s, f)| <= |s|
    ensures forall k :: 0 <= k < |FilterMap(s, f)| ==>
              exists i :: 0 <= i < |s| && f(s[i]) == Some(FilterMap(s, f)[k])
    decreases |s|
  {
    if |s| > 0 {
      FilterMapFrom(s[1..], f);
      var r := FilterMap(s, f);
      var p := Present(f(s[0]));
      forall k | 0 <= k < |r|
        ensures exists i :: 0 <= i < |s| && f(s[i]) == Some(r[k])
      {
        if k < |p| {
          assert f(s[0]) == Some(r[k]);
        } else {
          assert r[k] == FilterMap(s[1..], f)[k - |p|];
          var i :| 0 <= i < |s[1..]| && f(s[1..][i]) == Some(r[k]);
          assert f(s[i + 1]) == Some(r[k]);
        }
      }
    }
  }

  /** Processing `a` then `b` keeps the results of `a` followed by those of `b`. */
  lemma {:induction false} FilterMapAppend<A, B>(a: seq<A>, b: seq<A>, f: A -> Option<B>)
    ensures FilterMap(a + b, f) == FilterMap(a, f) + FilterMap(b, f)
    decreases |a|
  {
    if |a| == 0 {
      assert a + b == b;
    } else {
      assert (a + b)[0] == a[0];
      assert (a + b)[1..] == a[1..] + b;
      FilterMapAppend(a[1..], b, f);
    }
  }

  lemma FilterMapSingle<A, B>(x: A, f: A -> Option<B>)
    ensures FilterMap([x], f) == Present(f(x))
  {
    assert [x][1..] == [];
  }

  /** One more element appends its result, if any. */
  lemma FilterMapSnoc<A, B>(s: seq<A>, i: nat, f: A -> Option<B>)
    requires i < |s|
    ensures FilterMap(s[..i + 1], f) == FilterMap(s[..i], f) + Present(f(s[i]))
  {
    assert s[..i + 1] == s[..i] + [s[i]];
    FilterMapAppend(s[..i], [s[i]], f);
    FilterMapSingle(s[i], f);
  }

  /** The results of a sequence are those before position `k`, then the
      result at `k`, then those after it. */
  lemma FilterMapAround<A, B>(b: seq<A>, k: nat, f: A -> Option<B>)
    requires k < |b|
    ensures FilterMap(b, f) == FilterMap(b[..k], f) + (Present(f(b[k])) + FilterMap(b[k + 1..], f))
  {
    var pre, x, post := b[..k], b[k], b[k + 1..];
    SplitAround(b, k);
    FilterMapAppend(pre, [x] + post, f);
    FilterMapAppend([x], post, f);
    FilterMapSingle(x, f);
  }

  lemma SplitAround<A>(b: seq<A>, k: nat)
    requires k < |b|
    ensures b == b[..k] + ([b[k]] + b[k + 1..])
  {
  }

  /** Without the element at `k`, the results before and after it remain. */
  lemma FilterMapWithout<A, B>(b: seq<A>, k: nat, f: A -> Option<B>)
    requires k < |b|
    ensures FilterMap(b[..k] + b[k + 1..], f) == FilterMap(b[..k], f) + FilterMap(b[k + 1..], f)
  {
    FilterMapAppend(b[..k], b[k + 1..], f);
  }

  /** `f` applied to each element with its position counted from 1, as
      `enumerate(s, 1)` does. */
  function Numbered<A, B>(s: seq<A>, f: (nat, A) -> B): (r: seq<B>)
    ensures |r| == |s|
    ensures forall i :: 0 <= i < |s| ==> r[i] == f(i + 1, s[i])
  {
    seq(|s|, i requires 0 <= i < |s| => f(i + 1, s[i]))
  }

  /** Every element's result, when it has one, is kept. */
  lemma FilterMapKeeps<A, B>(s: seq<A>, f: A -> Option<B>)
    ensures forall i :: 0 <= i < |s| && f(s[i]).Some? ==> f(s[i]).value in FilterMap(s, f)
  {
    forall i | 0 <= i < |s| && f(s[i]).Some?
      ensures f(s[i]).value in FilterMap(s, f)
    {
      FilterMapAround(s, i, f);
      var fp, fx := FilterMap(s[..i], f), Present(f(s[i]));
      assert FilterMap(s, f)[|fp|] == fx[0];
    }
  }

  /** Taking one element out of the middle takes out just its result. */
  lemma FilterMapExtract<A, B>(b: seq<A>, k: nat, f: A -> Option<B>)
    requires k < |b|
    ensures multiset(FilterMap(b, f))
            == multiset(Present(f(b[k]))) + multiset(FilterMap(b[..k] + b[k + 1..], f))
  {
    FilterMapAround(b, k, f);
    FilterMapWithout(b, k, f);
    var fp, fx, fq := FilterMap(b[..k], f), Present(f(b[k])), FilterMap(b[k + 1..], f);
    calc {
      multiset(fp + (fx + fq));
      multiset(fp) + (multiset(fx) + multiset(fq));
      multiset(fx) + (multiset(fp) + multiset(fq));
      multiset(fx) + multiset(fp + fq);
    }
  }

  /** Permuting the input permutes the kept results. */
  lemma {:induction false} FilterMapPermutation<A, B>(a: seq<A>, b: seq<A>, f: A -> Option<B>)
    requires multiset(a) == multiset(b)
    ensures multiset(FilterMap(a, f)) == multiset(FilterMap(b, f))
    decreases |a|
  {
    if |a| == 0 {
      assert |b| == |multiset(b)| == 0;
    } else {
      var k := PermutationSplit(a, b);
      FilterMapPermutation(a[1..], b[..k] + b[k + 1..], f);
      FilterMapExtract(b, k, f);
    }
  }
}
