/** Order-preserving selection from a sequence: the model of JavaScript's
    `Array.prototype.filter`, which the tracker uses for the status/search
    filter, for deletion, for grouping and for the dashboard counts. */
module Seqs {

  /** The elements of `s` that satisfy `p`, in their order in `s`. */
  function Filter<T>(s: seq<T>, p: T -> bool): (r: seq<T>)
    ensures |r| <= |s|
    ensures forall k :: 0 <= k < |r| ==> r[k] in s && p(r[k])
    ensures forall j :: 0 <= j < |s| && p(s[j]) ==> s[j] in r
  {
    if s == [] then []
    else (if p(s[0]) then [s[0]] else []) + Filter(s[1..], p)
  }

  /** `idx` lists, in strictly increasing order, positions of `s` whose
      elements, read in that order, are `r`. */
  ghost predicate IsIndexing<T>(r: seq<T>, s: seq<T>, idx: seq<int>)
  {
    && |idx| == |r|
    && (forall k :: 0 <= k < |idx| ==> 0 <= idx[k] < |s| && r[k] == s[idx[k]])
    && (forall k, l :: 0 <= k < l < |idx| ==> idx[k] < idx[l])
  }

  /** Every position moved one place to the right. */
  function Shift(idx: seq<int>): (r: seq<int>)
    ensures |r| == |idx|
    ensures forall k :: 0 <= k < |r| ==> r[k] == idx[k] + 1
  {
    seq(|idx|, k requires 0 <= k < |idx| => idx[k] + 1)
  }

  lemma ShiftIndexing<T>(r: seq<T>, s: seq<T>, idx: seq<int>)
    requires s != [] && IsIndexing(r, s[1..], idx)
    ensures IsIndexing(r, s, Shift(idx))
    ensures forall k :: 0 <= k < |idx| ==> 0 < Shift(idx)[k]
  {
    forall k | 0 <= k < |idx|
      ensures r[k] == s[Shift(idx)[k]]
    {
      assert s[1..][idx[k]] == s[idx[k] + 1];
    }
  }

  lemma ConsIndexing<T>(r: seq<T>, s: seq<T>, idx: seq<int>)
    requires s != [] && IsIndexing(r, s, idx)
    requires forall k :: 0 <= k < |idx| ==> 0 < idx[k]
    ensures IsIndexing([s[0]] + r, s, [0] + idx)
  {
  }

  lemma ShiftMembers(idx: seq<int>, j: int)
    ensures j + 1 in Shift(idx) <==> j in idx
  {
    if j in idx {
      var k :| 0 <= k < |idx| && idx[k] == j;
      assert Shift(idx)[k] == j + 1;
    }
  }

  /** Filtering keeps exactly the positions whose element satisfies `p`,
      in their original order. */
  lemma {:induction false} FilterSelects<T>(s: seq<T>, p: T -> bool) returns (idx: seq<int>)
    ensures IsIndexing(Filter(s, p), s, idx)
    ensures forall j :: 0 <= j < |s| ==> (j in idx <==> p(s[j]))
  {
    if s == [] {
      idx := [];
    } else {
      var rest := FilterSelects(s[1..], p);
      var tail := Filter(s[1..], p);
      ShiftIndexing(tail, s, rest);
      var shifted := Shift(rest);
      assert 0 !in shifted;
      if p(s[0]) {
        idx := [0] + shifted;
        ConsIndexing(tail, s, shifted);
        assert Filter(s, p) == [s[0]] + tail;
      } else {
        idx := shifted;
        assert Filter(s, p) == tail;
        assert idx == [] + shifted;
      }
      ConsMembers(s, p, rest, idx);
    }
  }

  /** Where `rest` selects the passing positions of `s[1..]`, shifting it
      and adding position 0 when `s[0]` passes selects those of `s`. */
  lemma ConsMembers<T>(s: seq<T>, p: T -> bool, rest: seq<int>, idx: seq<int>)
    requires s != []
    requires forall k :: 0 <= k < |rest| ==> 0 <= rest[k]
    requires forall j :: 0 <= j < |s| - 1 ==> (j in rest <==> p(s[1..][j]))
    requires idx == (if p(s[0]) then [0] else []) + Shift(rest)
    ensures forall j :: 0 <= j < |s| ==> (j in idx <==> p(s[j]))
  {
    forall j | 0 <= j < |s|
      ensures j in idx <==> p(s[j])
    {
      if j == 0 {
        assert 0 !in Shift(rest);
      } else {
        ShiftMembers(rest, j - 1);
        assert s[1..][j - 1] == s[j];
      }
    }
  }

  /** Filtering distributes over concatenation: what a prefix keeps comes
      before what the rest keeps. */
  lemma {:induction false} FilterConcat<T>(a: seq<T>, b: seq<T>, p: T -> bool)
    ensures Filter(a + b, p) == Filter(a, p) + Filter(b, p)
  {
    if a == [] {
      assert a + b == b;
    } else {
      assert (a + b)[1..] == a[1..] + b;
      FilterConcat(a[1..], b, p);
    }
  }

  /** When every element satisfies `p`, filtering leaves the sequence
      identical. */
  lemma {:induction false} FilterKeepsAll<T>(s: seq<T>, p: T -> bool)
    requires forall x :: x in s ==> p(x)
    ensures Filter(s, p) == s
  {
    if s != [] {
      FilterKeepsAll(s[1..], p);
    }
  }

  /** Two predicates that agree on the elements of `s` select the same. */
  lemma {:induction false} FilterCongruent<T>(s: seq<T>, p: T -> bool, q: T -> bool)
    requires forall x :: x in s ==> p(x) == q(x)
    ensures Filter(s, p) == Filter(s, q)
  {
    if s != [] {
      FilterCongruent(s[1..], p, q);
    }
  }

  /** Filtering with two predicates no element satisfies together keeps
      no more elements in all than the sequence has. */
  lemma {:induction false} FilterDisjointSizes<T>(s: seq<T>, p: T -> bool, q: T -> bool)
    requires forall x :: x in s ==> !(p(x) && q(x))
    ensures |Filter(s, p)| + |Filter(s, q)| <= |s|
  {
    if s != [] {
      FilterDisjointSizes(s[1..], p, q);
    }
  }

  /** Each element is kept as many times as it occurs, or not at all. */
  lemma {:induction false} FilterMultiset<T>(s: seq<T>, p: T -> bool, x: T)
    ensures multiset(Filter(s, p))[x] == if p(x) then multiset(s)[x] else 0
  {
    if s != [] {
      FilterMultiset(s[1..], p, x);
      assert s == [s[0]] + s[1..];
    }
  }
}
