/** Order-preserving filtering of sequences: the list comprehension
    `[x for x in xs if p(x)]` that the handlers use for every removal, and
    the two loop shapes of the reply parser. */
module Seqs {
  import opened Wrappers

  /** `idx` picks the elements of `a` out of `b` at strictly increasing
      positions. */
  ghost predicate Embeds<T>(a: seq<T>, b: seq<T>, idx: seq<int>) {
    && |idx| == |a|
    && (forall i :: 0 <= i < |idx| ==> 0 <= idx[i] < |b| && a[i] == b[idx[i]])
    && (forall i, j :: 0 <= i < j < |idx| ==> idx[i] < idx[j])
  }

  /** `a` can be obtained from `b` by deleting elements, keeping the rest in
      their original order. */
  ghost predicate IsSubsequence<T>(a: seq<T>, b: seq<T>) {
    exists idx :: Embeds(a, b, idx)
  }

  /** A subsequence of the tail extends to one of the whole sequence, with
      or without the head. */
  lemma SubsequenceCons<T>(a: seq<T>, b: seq<T>, keepHead: bool)
    requires |b| > 0 && IsSubsequence(a, b[1..])
    ensures IsSubsequence(if keepHead then [b[0]] + a else a, b)
  {
    var idx :| Embeds(a, b[1..], idx);
    var shifted := seq(|idx|, i requires 0 <= i < |idx| => idx[i] + 1);
    assert Embeds(a, b, shifted) by {
      forall i | 0 <= i < |shifted|
        ensures 0 <= shifted[i] < |b| && a[i] == b[shifted[i]]
      {
        assert b[1..][idx[i]] == b[shifted[i]];
      }
    }
    if keepHead {
      var a2, idx2 := [b[0]] + a, [0] + shifted;
      forall i | 0 <= i < |idx2|
        ensures 0 <= idx2[i] < |b| && a2[i] == b[idx2[i]]
      {
        if i > 0 {
          assert idx2[i] == shifted[i - 1] && a2[i] == a[i - 1];
        }
      }
      forall i, j | 0 <= i < j < |idx2|
        ensures idx2[i] < idx2[j]
      {
        assert idx2[j] == shifted[j - 1];
        if i > 0 {
          assert idx2[i] == shifted[i - 1];
        }
      }
      assert Embeds(a2, b, idx2);
    }
  }

  /** Every sequence is a subsequence of itself. */
  lemma SubsequenceRefl<T>(s: seq<T>)
    ensures IsSubsequence(s, s)
  {
    var idx := seq(|s|, i requires 0 <= i < |s| => i);
    assert Embeds(s, s, idx);
  }

  /** A subsequence of a suffix is a subsequence of the whole. */
  lemma SubsequenceSuffix<T>(a: seq<T>, b: seq<T>, k: int)
    requires 0 <= k <= |b| && IsSubsequence(a, b[k..])
    ensures IsSubsequence(a, b)
  {
    var idx :| Embeds(a, b[k..], idx);
    var shifted := seq(|idx|, i requires 0 <= i < |idx| => idx[i] + k);
    forall i | 0 <= i < |shifted|
      ensures 0 <= shifted[i] < |b| && a[i] == b[shifted[i]]
    {
      assert b[k..][idx[i]] == b[shifted[i]];
    }
    assert Embeds(a, b, shifted);
  }

  /** The elements of `s` that satisfy `p`, in their original order:
      Python's `[x for x in s if p(x)]`. */
  function Filter<T(!new)>(s: seq<T>, p: T -> bool): (r: seq<T>)
    ensures |r| <= |s|
    ensures forall x :: x in r <==> x in s && p(x)
  {
    if |s| == 0 then []
    else if p(s[0]) then [s[0]] + Filter(s[1..], p)
    else Filter(s[1..], p)
  }

  /** Filtering keeps every occurrence of an accepted element, drops every
      occurrence of a rejected one, and keeps the survivors in order. */
  lemma {:induction false} FilterSpec<T(!new)>(s: seq<T>, p: T -> bool)
    ensures forall x :: multiset(Filter(s, p))[x] == if p(x) then multiset(s)[x] else 0
    ensures IsSubsequence(Filter(s, p), s)
    decreases |s|
  {
    if |s| == 0 {
      assert Embeds([], s, []);
    } else {
      var rest := Filter(s[1..], p);
      FilterSpec(s[1..], p);
      assert s == [s[0]] + s[1..];
      assert multiset(s) == multiset{s[0]} + multiset(s[1..]);
      SubsequenceCons(rest, s, p(s[0]));
    }
  }

  /** Filtering distributes over concatenation. */
  lemma {:induction false} FilterConcat<T(!new)>(a: seq<T>, b: seq<T>, p: T -> bool)
    ensures Filter(a + b, p) == Filter(a, p) + Filter(b, p)
    decreases |a|
  {
    if |a| == 0 {
      assert a + b == b;
    } else {
      assert (a + b)[1..] == a[1..] + b;
      FilterConcat(a[1..], b, p);
    }
  }

  /** When every element satisfies `p`, filtering changes nothing. */
  lemma {:induction false} FilterKeepsAll<T(!new)>(s: seq<T>, p: T -> bool)
    requires forall i :: 0 <= i < |s| ==> p(s[i])
    ensures Filter(s, p) == s
    decreases |s|
  {
    if |s| > 0 {
      FilterKeepsAll(s[1..], p);
    }
  }

  /** When no element satisfies `p`, filtering yields the empty sequence. */
  lemma {:induction false} FilterDropsAll<T(!new)>(s: seq<T>, p: T -> bool)
    requires forall i :: 0 <= i < |s| ==> !p(s[i])
    ensures Filter(s, p) == []
    decreases |s|
  {
    if |s| > 0 {
      FilterDropsAll(s[1..], p);
    }
  }

  /** Filtering twice with the same predicate is filtering once. */
  lemma FilterIdempotent<T(!new)>(s: seq<T>, p: T -> bool)
    ensures Filter(Filter(s, p), p) == Filter(s, p)
  {
    var r := Filter(s, p);
    forall i | 0 <= i < |r|
      ensures p(r[i])
    {
      assert r[i] in r;
    }
    FilterKeepsAll(r, p);
  }

  /** Filtering depends only on which elements the predicate accepts. */
  lemma {:induction false} FilterExt<T(!new)>(s: seq<T>, p: T -> bool, q: T -> bool)
    requires forall i :: 0 <= i < |s| ==> p(s[i]) == q(s[i])
    ensures Filter(s, p) == Filter(s, q)
    decreases |s|
  {
    if |s| > 0 {
      FilterExt(s[1..], p, q);
    }
  }

  /** `f` of each element of `s` that satisfies `p`, in order: what a loop
      appending `f(x)` for every accepted `x` builds. */
  function FilterMap<T, U>(s: seq<T>, p: T -> bool, f: T -> U): (r: seq<U>)
    ensures |r| <= |s|
  {
    if |s| == 0 then []
    else FilterMap(s[..|s| - 1], p, f) + (if p(s[|s| - 1]) then [f(s[|s| - 1])] else [])
  }

  /** One more element appends its image exactly when it is accepted. */
  lemma FilterMapStep<T, U>(s: seq<T>, p: T -> bool, f: T -> U, i: int)
    requires 0 <= i < |s|
    ensures FilterMap(s[..i + 1], p, f) == FilterMap(s[..i], p, f) + (if p(s[i]) then [f(s[i])] else [])
  {
    assert s[..i + 1][..i] == s[..i];
  }

  /** Nothing is collected exactly when no element is accepted. */
  lemma {:induction false} FilterMapEmpty<T, U>(s: seq<T>, p: T -> bool, f: T -> U)
    ensures FilterMap(s, p, f) == [] <==> forall i :: 0 <= i < |s| ==> !p(s[i])
    decreases |s|
  {
    if |s| > 0 {
      var init := s[..|s| - 1];
      FilterMapEmpty(init, p, f);
      assert forall i :: 0 <= i < |init| ==> init[i] == s[i];
    }
  }

  /** The collected values are the images of the filtered elements, one for
      one and in order. */
  lemma {:induction false} FilterMapSpec<T(!new), U>(s: seq<T>, p: T -> bool, f: T -> U)
    ensures |FilterMap(s, p, f)| == |Filter(s, p)|
    ensures forall j :: 0 <= j < |FilterMap(s, p, f)| ==> FilterMap(s, p, f)[j] == f(Filter(s, p)[j])
    decreases |s|
  {
    if |s| > 0 {
      var init, last := s[..|s| - 1], s[|s| - 1];
      FilterMapSpec(init, p, f);
      var found, kept := FilterMap(init, p, f), Filter(init, p);
      var step := if p(last) then [f(last)] else [];
      assert FilterMap(s, p, f) == found + step;
      assert Filter(s, p) == kept + Filter([last], p) by {
        assert s == init + [last];
        FilterConcat(init, [last], p);
      }
      var chosen := if p(last) then [last] else [];
      assert Filter([last], p) == chosen by {
        assert [last][1..] == [];
      }
      var all, sel := found + step, kept + chosen;
      forall j | 0 <= j < |all|
        ensures all[j] == f(sel[j])
      {
        if j < |found| {
          assert all[j] == found[j] && sel[j] == kept[j];
        } else {
          assert all[j] == f(last) && sel[j] == last;
        }
      }
    }
  }

  /** `f` of the last element of `s` that satisfies `p`, or `d` when none
      does: what a loop overwriting a variable on every accepted element
      leaves. */
  function LastMatch<T, U>(s: seq<T>, p: T -> bool, f: T -> U, d: U): (r: U)
    ensures r == d || exists k :: 0 <= k < |s| && p(s[k]) && r == f(s[k])
  {
    if |s| == 0 then d
    else if p(s[|s| - 1]) then f(s[|s| - 1])
    else
      var init := s[..|s| - 1];
      assert forall k :: 0 <= k < |init| ==> init[k] == s[k];
      LastMatch(init, p, f, d)
  }

  /** One more element takes over exactly when it is accepted. */
  lemma LastMatchStep<T, U>(s: seq<T>, p: T -> bool, f: T -> U, d: U, i: int)
    requires 0 <= i < |s|
    ensures LastMatch(s[..i + 1], p, f, d) == if p(s[i]) then f(s[i]) else LastMatch(s[..i], p, f, d)
  {
    assert s[..i + 1][..i] == s[..i];
  }

  /** With no accepted element the default stays. */
  lemma {:induction false} LastMatchNone<T, U>(s: seq<T>, p: T -> bool, f: T -> U, d: U)
    requires forall i :: 0 <= i < |s| ==> !p(s[i])
    ensures LastMatch(s, p, f, d) == d
    decreases |s|
  {
    if |s| > 0 {
      var init := s[..|s| - 1];
      assert forall i :: 0 <= i < |init| ==> init[i] == s[i];
      LastMatchNone(init, p, f, d);
    }
  }

  /** The last accepted element decides. */
  lemma {:induction false} LastMatchAt<T, U>(s: seq<T>, p: T -> bool, f: T -> U, d: U, k: int)
    requires 0 <= k < |s| && p(s[k])
    requires forall j :: k < j < |s| ==> !p(s[j])
    ensures LastMatch(s, p, f, d) == f(s[k])
    decreases |s|
  {
    if k < |s| - 1 {
      var init := s[..|s| - 1];
      assert forall j :: 0 <= j < |init| ==> init[j] == s[j];
      LastMatchAt(init, p, f, d, k);
    }
  }

  /** Some element of `s` maps to `Some(y)` under `f`. */
  ghost predicate Yields<T, U>(s: seq<T>, f: T -> Option<U>, y: U) {
    exists i :: 0 <= i < |s| && f(s[i]) == Some(y)
  }

  /** Every element of `s` maps to a value under `f`. */
  ghost predicate AllSome<T, U>(s: seq<T>, f: T -> Option<U>) {
    forall i :: 0 <= i < |s| ==> f(s[i]).Some?
  }

  /** A one-element sequence yields what its element yields. */
  lemma YieldsSingle<T, U>(x: T, f: T -> Option<U>)
    ensures AllSome([x], f) <==> f(x).Some?
    ensures forall y :: Yields([x], f, y) <==> f(x) == Some(y)
  {
    assert [x][0] == x;
  }

  /** Both predicates split into the head and the tail. */
  lemma YieldsStep<T, U>(s: seq<T>, f: T -> Option<U>)
    requires |s| > 0
    ensures AllSome(s, f) <==> f(s[0]).Some? && AllSome(s[1..], f)
    ensures forall y :: Yields(s, f, y) <==> f(s[0]) == Some(y) || Yields(s[1..], f, y)
  {
    var tail := s[1..];
    assert AllSome(s, f) <==> f(s[0]).Some? && AllSome(tail, f) by {
      if f(s[0]).Some? && AllSome(tail, f) {
        forall i | 1 <= i < |s| ensures f(s[i]).Some? {
          assert s[i] == tail[i - 1];
        }
      }
      if AllSome(s, f) {
        forall i | 0 <= i < |tail| ensures f(tail[i]).Some? {
          assert tail[i] == s[i + 1];
        }
      }
    }
    forall y ensures Yields(s, f, y) <==> f(s[0]) == Some(y) || Yields(tail, f, y) {
      if Yields(s, f, y) && f(s[0]) != Some(y) {
        var i :| 0 <= i < |s| && f(s[i]) == Some(y);
        assert tail[i - 1] == s[i];
      }
      if Yields(tail, f, y) {
        var i :| 0 <= i < |tail| && f(tail[i]) == Some(y);
        assert s[i + 1] == tail[i];
      }
    }
  }
}
