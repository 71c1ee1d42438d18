/** Stable sorting by an integer key: the model of `Array.prototype.sort`
    with a comparator of the form `key(a) - key(b)`. ECMAScript requires
    that sort to be stable, so its result is fixed by the comparator; an
    insertion sort gives it, and `SortedStableIsUnique` shows that no
    other stable sort could give anything else. */
module Sorting {
  import opened Seqs

  ghost predicate SortedBy<T>(s: seq<T>, key: T -> int)
  {
    forall i, j :: 0 <= i < j < |s| ==> key(s[i]) <= key(s[j])
  }

  /** `s` with `x` placed after every element whose key is at most
      `key(x)` and before the greater ones at the end. */
  function Insert<T>(s: seq<T>, x: T, key: T -> int): (r: seq<T>)
    ensures |r| == |s| + 1
  {
    if s == [] then [x]
    else if key(s[|s| - 1]) <= key(x) then s + [x]
    else Insert(s[..|s| - 1], x, key) + [s[|s| - 1]]
  }

  /** Inserting adds `x` and nothing else. */
  lemma {:induction false} InsertPermutes<T>(s: seq<T>, x: T, key: T -> int)
    ensures multiset(Insert(s, x, key)) == multiset(s) + multiset{x}
  {
    if s != [] && key(s[|s| - 1]) > key(x) {
      var init := s[..|s| - 1];
      InsertPermutes(init, x, key);
      assert s == init + [s[|s| - 1]];
    }
  }

  /** Inserting `x` below a bound every element respects keeps them all
      below it. */
  lemma InsertBounded<T>(s: seq<T>, x: T, key: T -> int, b: int)
    requires forall y :: y in s ==> key(y) <= b
    requires key(x) <= b
    ensures forall y :: y in Insert(s, x, key) ==> key(y) <= b
  {
    InsertPermutes(s, x, key);
    forall y | y in Insert(s, x, key)
      ensures key(y) <= b
    {
      assert y in multiset(Insert(s, x, key));
      if y != x {
        assert y in multiset(s);
      }
    }
  }

  /** Appending an element no smaller than any other keeps a sorted
      sequence sorted. */
  lemma SortedSnoc<T>(s: seq<T>, last: T, key: T -> int)
    requires SortedBy(s, key)
    requires forall y :: y in s ==> key(y) <= key(last)
    ensures SortedBy(s + [last], key)
  {
    var r := s + [last];
    forall i, j | 0 <= i < j < |r|
      ensures key(r[i]) <= key(r[j])
    {
      if j == |s| {
        assert r[i] in s;
      }
    }
  }

  lemma {:induction false} InsertSorted<T>(s: seq<T>, x: T, key: T -> int)
    requires SortedBy(s, key)
    ensures SortedBy(Insert(s, x, key), key)
  {
    if s != [] && key(s[|s| - 1]) > key(x) {
      var init, last := s[..|s| - 1], s[|s| - 1];
      InsertSorted(init, x, key);
      forall y | y in init
        ensures key(y) <= key(last)
      {
        var i :| 0 <= i < |init| && init[i] == y;
        assert s[i] == y;
      }
      InsertBounded(init, x, key, key(last));
      SortedSnoc(Insert(init, x, key), last, key);
    }
  }

  /** The stable sort of `s` by `key`: each element in turn inserted
      into the sorted arrangement of those before it. */
  function SortByKey<T>(s: seq<T>, key: T -> int): (r: seq<T>)
    ensures |r| == |s|
  {
    if s == [] then []
    else Insert(SortByKey(s[..|s| - 1], key), s[|s| - 1], key)
  }

  /** Sorting rearranges: the result holds the same elements as many
      times as the input. */
  lemma {:induction false} SortByKeyPermutes<T>(s: seq<T>, key: T -> int)
    ensures multiset(SortByKey(s, key)) == multiset(s)
  {
    if s != [] {
      var init, last := s[..|s| - 1], s[|s| - 1];
      SortByKeyPermutes(init, key);
      InsertPermutes(SortByKey(init, key), last, key);
      assert s == init + [last];
    }
  }

  /** The sorted result has non-decreasing keys. */
  lemma {:induction false} SortByKeySorted<T>(s: seq<T>, key: T -> int)
    ensures SortedBy(SortByKey(s, key), key)
  {
    if s != [] {
      SortByKeySorted(s[..|s| - 1], key);
      InsertSorted(SortByKey(s[..|s| - 1], key), s[|s| - 1], key);
    }
  }

  function HasKey<T>(key: T -> int, k: int): T -> bool
  {
    x => key(x) == k
  }

  /** The elements of `s` with key `k`, in their order in `s`. */
  function KeyClass<T>(s: seq<T>, key: T -> int, k: int): seq<T>
  {
    Filter(s, HasKey(key, k))
  }

  /** `u` and `v` hold the same elements of every key in the same order. */
  ghost predicate SameClasses<T>(u: seq<T>, v: seq<T>, key: T -> int)
  {
    forall k :: KeyClass(u, key, k) == KeyClass(v, key, k)
  }

  lemma KeyClassSnoc<T>(s: seq<T>, x: T, key: T -> int, k: int)
    ensures KeyClass(s + [x], key, k) == KeyClass(s, key, k) + (if key(x) == k then [x] else [])
  {
    FilterConcat(s, [x], HasKey(key, k));
  }

  lemma {:induction false} InsertKeyClass<T>(s: seq<T>, x: T, key: T -> int, k: int)
    ensures KeyClass(Insert(s, x, key), key, k) == KeyClass(s + [x], key, k)
  {
    if s != [] && key(s[|s| - 1]) > key(x) {
      var init, last := s[..|s| - 1], s[|s| - 1];
      var X := if key(x) == k then [x] else [];
      var L := if key(last) == k then [last] else [];
      assert X == [] || L == [];
      calc {
        KeyClass(Insert(s, x, key), key, k);
        KeyClass(Insert(init, x, key) + [last], key, k);
        { KeyClassSnoc(Insert(init, x, key), last, key, k); }
        KeyClass(Insert(init, x, key), key, k) + L;
        { InsertKeyClass(init, x, key, k); }
        KeyClass(init + [x], key, k) + L;
        { KeyClassSnoc(init, x, key, k); }
        KeyClass(init, key, k) + X + L;
        KeyClass(init, key, k) + L + X;
        { KeyClassSnoc(init, last, key, k); assert s == init + [last]; }
        KeyClass(s, key, k) + X;
        { KeyClassSnoc(s, x, key, k); }
        KeyClass(s + [x], key, k);
      }
    } else {
      assert s == [] ==> Insert(s, x, key) == s + [x];
    }
  }

  /** Sorting is stable: the elements of each key keep their order. */
  lemma {:induction false} SortByKeyStable<T>(s: seq<T>, key: T -> int, k: int)
    ensures KeyClass(SortByKey(s, key), key, k) == KeyClass(s, key, k)
  {
    if s != [] {
      var init, last := s[..|s| - 1], s[|s| - 1];
      var sortedInit := SortByKey(init, key);
      calc {
        KeyClass(SortByKey(s, key), key, k);
        KeyClass(Insert(sortedInit, last, key), key, k);
        { InsertKeyClass(sortedInit, last, key, k); }
        KeyClass(sortedInit + [last], key, k);
        { KeyClassSnoc(sortedInit, last, key, k); }
        KeyClass(sortedInit, key, k) + (if key(last) == k then [last] else []);
        { SortByKeyStable(init, key, k); }
        KeyClass(init, key, k) + (if key(last) == k then [last] else []);
        { KeyClassSnoc(init, last, key, k); assert s == init + [last]; }
        KeyClass(s, key, k);
      }
    }
  }

  lemma KeyClassMember<T>(s: seq<T>, key: T -> int, i: int)
    requires 0 <= i < |s|
    ensures KeyClass(s, key, key(s[i])) != []
  {
    assert HasKey(key, key(s[i]))(s[i]);
  }

  lemma KeyClassFrom<T>(s: seq<T>, key: T -> int, k: int) returns (i: int)
    requires KeyClass(s, key, k) != []
    ensures 0 <= i < |s| && key(s[i]) == k
  {
    var y := KeyClass(s, key, k)[0];
    assert y in s;
    i :| 0 <= i < |s| && s[i] == y;
  }

  /** Of two sorted sequences with the same elements of every key, the
      last elements have the same key (the greatest). */
  lemma LastKeysAgree<T>(u: seq<T>, v: seq<T>, key: T -> int)
    requires u != [] && v != []
    requires SortedBy(u, key) && SortedBy(v, key)
    requires SameClasses(u, v, key)
    ensures key(u[|u| - 1]) == key(v[|v| - 1])
  {
    var m, m' := key(u[|u| - 1]), key(v[|v| - 1]);
    assert KeyClass(u, key, m) == KeyClass(v, key, m);
    LastKeyAtMost(u, v, key);
    assert KeyClass(v, key, m') == KeyClass(u, key, m');
    LastKeyAtMost(v, u, key);
  }

  /** The last key of `u` occurs in `v`, so it is at most `v`'s last key
      when `v` is sorted. */
  lemma LastKeyAtMost<T>(u: seq<T>, v: seq<T>, key: T -> int)
    requires u != [] && v != [] && SortedBy(v, key)
    requires KeyClass(u, key, key(u[|u| - 1])) == KeyClass(v, key, key(u[|u| - 1]))
    ensures key(u[|u| - 1]) <= key(v[|v| - 1])
  {
    KeyClassMember(u, key, |u| - 1);
    var iv := KeyClassFrom(v, key, key(u[|u| - 1]));
    if iv < |v| - 1 {
      assert key(v[iv]) <= key(v[|v| - 1]);
    }
  }

  lemma SnocInjective<T>(x: seq<T>, a: T, y: seq<T>, b: T)
    requires x + [a] == y + [b]
    ensures x == y && a == b
  {
    assert x == (x + [a])[..|x|];
    assert y == (y + [b])[..|y|];
    assert a == (x + [a])[|x|];
  }

  lemma ClassesWithoutLast<T>(u: seq<T>, v: seq<T>, key: T -> int)
    requires u != [] && v != []
    requires key(u[|u| - 1]) == key(v[|v| - 1])
    requires SameClasses(u, v, key)
    ensures u[|u| - 1] == v[|v| - 1]
    ensures SameClasses(u[..|u| - 1], v[..|v| - 1], key)
  {
    var u', a := u[..|u| - 1], u[|u| - 1];
    var v', b := v[..|v| - 1], v[|v| - 1];
    assert u == u' + [a] && v == v' + [b];
    forall k
      ensures KeyClass(u', key, k) == KeyClass(v', key, k)
    {
      KeyClassSnoc(u', a, key, k);
      KeyClassSnoc(v', b, key, k);
      assert KeyClass(u, key, k) == KeyClass(v, key, k);
      assert KeyClass(u' + [a], key, k) == KeyClass(v' + [b], key, k);
      if key(a) == k {
        SnocInjective(KeyClass(u', key, k), a, KeyClass(v', key, k), b);
      } else {
        assert KeyClass(u, key, k) == KeyClass(u', key, k) + [] == KeyClass(u', key, k);
        assert KeyClass(v, key, k) == KeyClass(v', key, k) + [] == KeyClass(v', key, k);
      }
    }
    var m := key(a);
    KeyClassSnoc(u', a, key, m);
    KeyClassSnoc(v', b, key, m);
    assert KeyClass(u, key, m) == KeyClass(v, key, m);
    SnocInjective(KeyClass(u', key, m), a, KeyClass(v', key, m), b);
  }

  lemma SortedPrefix<T>(u: seq<T>, n: int, key: T -> int)
    requires 0 <= n <= |u| && SortedBy(u, key)
    ensures SortedBy(u[..n], key)
  {
  }

  /** Two sequences sorted by `key` that hold the same elements of every
      key in the same order are equal. */
  lemma {:induction false} SameClassesSortedEqual<T>(u: seq<T>, v: seq<T>, key: T -> int)
    requires SortedBy(u, key) && SortedBy(v, key)
    requires SameClasses(u, v, key)
    ensures u == v
    decreases |u|
  {
    if u == [] || v == [] {
      if v != [] {
        KeyClassMember(v, key, 0);
      } else if u != [] {
        KeyClassMember(u, key, 0);
      }
    } else {
      LastKeysAgree(u, v, key);
      ClassesWithoutLast(u, v, key);
      SortedPrefix(u, |u| - 1, key);
      SortedPrefix(v, |v| - 1, key);
      SameClassesSortedEqual(u[..|u| - 1], v[..|v| - 1], key);
      assert u == u[..|u| - 1] + [u[|u| - 1]];
      assert v == v[..|v| - 1] + [v[|v| - 1]];
    }
  }

  /** Any arrangement of `s` that is sorted by `key` and keeps the order
      of the elements of each key is `SortByKey(s, key)`. */
  lemma SortedStableIsUnique<T>(s: seq<T>, t: seq<T>, key: T -> int)
    requires SortedBy(t, key)
    requires SameClasses(t, s, key)
    ensures t == SortByKey(s, key)
  {
    forall k
      ensures KeyClass(t, key, k) == KeyClass(SortByKey(s, key), key, k)
    {
      SortByKeyStable(s, key, k);
    }
    SortByKeySorted(s, key);
    SameClassesSortedEqual(t, SortByKey(s, key), key);
  }

  /** Every order-preserving selection from a sorted sequence is sorted. */
  lemma FilterSorted<T>(s: seq<T>, p: T -> bool, key: T -> int)
    requires SortedBy(s, key)
    ensures SortedBy(Filter(s, p), key)
  {
    var idx := FilterSelects(s, p);
  }

  /** Inserting into a prefix whose last key is at most `key(x)` appends. */
  lemma InsertAfterSmaller<T>(s: seq<T>, j: int, x: T, key: T -> int)
    requires 0 <= j <= |s|
    requires j == 0 || key(s[j - 1]) <= key(x)
    ensures Insert(s[..j], x, key) == s[..j] + [x]
  {
  }

  /** One step of the shifting loop: moving past a greater key. */
  lemma InsertPastGreater<T>(s: seq<T>, j: int, x: T, key: T -> int)
    requires 0 < j <= |s|
    requires key(s[j - 1]) > key(x)
    ensures Insert(s[..j], x, key) + s[j..] == Insert(s[..j - 1], x, key) + s[j - 1..]
  {
    assert s[..j][..j - 1] == s[..j - 1];
    assert s[j - 1..] == [s[j - 1]] + s[j..];
  }

  /** Moves `a[i]` left past the greater keys before it: the first
      `i + 1` elements become `Insert(old(a[..i]), old(a[i]), key)`. */
  method InsertLast<T>(a: array<T>, i: int, key: T -> int)
    requires 0 <= i < a.Length
    modifies a
    ensures a[..i + 1] == Insert(old(a[..i]), old(a[i]), key)
    ensures a[i + 1..] == old(a[i + 1..])
  {
    ghost var done := a[..i];
    var x := a[i];
    var j := i;
    assert done[..j] == done && done[j..] == [];
    while j > 0 && key(a[j - 1]) > key(x)
      invariant 0 <= j <= i
      invariant forall k :: 0 <= k < j ==> a[k] == done[k]
      invariant forall k :: j < k <= i ==> a[k] == done[k - 1]
      invariant forall k :: i < k < a.Length ==> a[k] == old(a[k])
      invariant Insert(done, x, key) == Insert(done[..j], x, key) + done[j..]
    {
      InsertPastGreater(done, j, x, key);
      var moved := a[j - 1];
      assert moved == done[j - 1];
      a[j] := moved;
      forall k | j <= k <= i
        ensures a[k] == done[k - 1]
      {
        if k == j {
          assert a[k] == moved;
        }
      }
      j := j - 1;
    }
    a[j] := x;
    InsertAfterSmaller(done, j, x, key);
    GapFilled(a[..i + 1], done, j, x);
    assert a[i + 1..] == old(a[i + 1..]);
  }

  /** A sequence that agrees with `done` below `j`, holds `x` at `j` and
      agrees with `done` shifted by one above `j` is `done` with `x`
      inserted at `j`. */
  lemma GapFilled<T>(cur: seq<T>, done: seq<T>, j: int, x: T)
    requires 0 <= j <= |done| && |cur| == |done| + 1
    requires forall k :: 0 <= k < j ==> cur[k] == done[k]
    requires cur[j] == x
    requires forall k :: j < k < |cur| ==> cur[k] == done[k - 1]
    ensures cur == done[..j] + [x] + done[j..]
  {
  }

  /** Sorts `a` in place, stably, by `key`. */
  method SortInPlace<T>(a: array<T>, key: T -> int)
    modifies a
    ensures a[..] == SortByKey(old(a[..]), key)
  {
    ghost var input := a[..];
    var i := 0;
    while i < a.Length
      invariant 0 <= i <= a.Length
      invariant a[..i] == SortByKey(input[..i], key)
      invariant a[i..] == input[i..]
    {
      ghost var prefix := input[..i + 1];
      assert prefix[..i] == input[..i] && prefix[i] == a[i];
      assert SortByKey(prefix, key) == Insert(SortByKey(input[..i], key), a[i], key);
      InsertLast(a, i, key);
      assert a[..i + 1] == SortByKey(prefix, key);
      assert a[i + 1..] == input[i + 1..];
      i := i + 1;
    }
    assert input[..a.Length] == input;
  }
}
