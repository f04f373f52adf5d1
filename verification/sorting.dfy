/** `filteredScholarships.sort(comparator)` for the three sort options
    (js/scholarships.js). Each comparator returns `key(a) - key(b)` for a sort
    key (Catalog.SortKey), and `Array.prototype.sort` is stable, so the result
    is the stable sort by that key. It is specified by insertion sort on
    sequences and carried out in place on an array. A key of `None` (NaN) is
    excluded: what a NaN comparator result does is left to the engine. */
module Sorting {
  import opened Optional

  predicate AllKeyed<T>(key: T -> Option<real>, s: seq<T>) {
    forall i :: 0 <= i < |s| ==> key(s[i]).Some?
  }

  /** Keys never decrease along `s`. */
  predicate SortedBy<T>(key: T -> Option<real>, s: seq<T>)
    requires AllKeyed(key, s)
  {
    forall i, j :: 0 <= i < j < |s| ==> key(s[i]).value <= key(s[j]).value
  }

  /** The elements of `s` whose key is `k`, in order. */
  function WithKey<T>(key: T -> Option<real>, s: seq<T>, k: real): (r: seq<T>)
    requires AllKeyed(key, s)
    ensures forall i :: 0 <= i < |r| ==> key(r[i]) == Some(k)
    ensures |r| <= |s|
  {
    if s == [] then []
    else WithKey(key, s[..|s| - 1], k) + (if key(s[|s| - 1]).value == k then [s[|s| - 1]] else [])
  }

  /** Places `x` after the last element of `s`, counted from the end, whose key
      is not greater than its own: the comparator is positive exactly for the
      elements it moves past. */
  function Insert<T>(key: T -> Option<real>, s: seq<T>, x: T): (r: seq<T>)
    requires AllKeyed(key, s) && key(x).Some?
    ensures |r| == |s| + 1 && AllKeyed(key, r)
  {
    if s == [] then [x]
    else if key(s[|s| - 1]).value <= key(x).value then s + [x]
    else
      var t := s[..|s| - 1];
      assert s == t + [s[|s| - 1]];
      Insert(key, t, x) + [s[|s| - 1]]
  }

  /** The stable sort by `key`, taking the elements one at a time from the front. */
  function InsertionSort<T>(key: T -> Option<real>, s: seq<T>): (r: seq<T>)
    requires AllKeyed(key, s)
    ensures |r| == |s| && AllKeyed(key, r)
  {
    if s == [] then []
    else
      var t := s[..|s| - 1];
      assert s == t + [s[|s| - 1]];
      Insert(key, InsertionSort(key, t), s[|s| - 1])
  }

  lemma {:induction false} InsertPermutes<T>(key: T -> Option<real>, s: seq<T>, x: T)
    requires AllKeyed(key, s) && key(x).Some?
    ensures multiset(Insert(key, s, x)) == multiset(s) + multiset{x}
  {
    if s != [] && key(s[|s| - 1]).value > key(x).value {
      var t, l := s[..|s| - 1], s[|s| - 1];
      InsertPermutes(key, t, x);
      assert s == t + [l];
      assert Insert(key, s, x) == Insert(key, t, x) + [l];
      assert multiset(Insert(key, t, x) + [l]) == multiset(Insert(key, t, x)) + multiset{l};
      assert multiset(s) == multiset(t) + multiset{l};
    }
  }

  /** The result is a permutation of the input. */
  lemma {:induction false} InsertionSortPermutes<T>(key: T -> Option<real>, s: seq<T>)
    requires AllKeyed(key, s)
    ensures multiset(InsertionSort(key, s)) == multiset(s)
  {
    if s != [] {
      var t := s[..|s| - 1];
      InsertionSortPermutes(key, t);
      InsertPermutes(key, InsertionSort(key, t), s[|s| - 1]);
      assert s == t + [s[|s| - 1]];
    }
  }

  lemma {:induction false} InsertSorted<T>(key: T -> Option<real>, s: seq<T>, x: T)
    requires AllKeyed(key, s) && key(x).Some? && SortedBy(key, s)
    ensures SortedBy(key, Insert(key, s, x))
  {
    if s != [] && key(s[|s| - 1]).value > key(x).value {
      var t, l := s[..|s| - 1], s[|s| - 1];
      InsertSorted(key, t, x);
      var r := Insert(key, t, x);
      InsertPermutes(key, t, x);
      assert forall m :: 0 <= m < |t| ==> key(t[m]).value <= key(l).value by {
        assert forall m :: 0 <= m < |t| ==> t[m] == s[m];
      }
      PermutedBelow(key, t, x, r, key(l).value);
      assert Insert(key, s, x) == r + [l];
      SortedSnoc(key, r, l);
    }
  }

  /** A sorted sequence followed by an element no smaller than any of it is sorted. */
  lemma SortedSnoc<T>(key: T -> Option<real>, r: seq<T>, l: T)
    requires AllKeyed(key, r) && key(l).Some? && SortedBy(key, r)
    requires forall i :: 0 <= i < |r| ==> key(r[i]).value <= key(l).value
    ensures AllKeyed(key, r + [l]) && SortedBy(key, r + [l])
  {
  }

  /** A rearrangement of `t` and `x` stays below a bound they all stay below. */
  lemma PermutedBelow<T>(key: T -> Option<real>, t: seq<T>, x: T, r: seq<T>, b: real)
    requires AllKeyed(key, t) && key(x).Some? && AllKeyed(key, r)
    requires multiset(r) == multiset(t) + multiset{x}
    requires forall m :: 0 <= m < |t| ==> key(t[m]).value <= b
    requires key(x).value <= b
    ensures forall i :: 0 <= i < |r| ==> key(r[i]).value <= b
  {
    forall i | 0 <= i < |r| ensures key(r[i]).value <= b {
      assert r[i] in multiset(r);
      if r[i] != x {
        assert r[i] in multiset(t);
        var m :| 0 <= m < |t| && t[m] == r[i];
      }
    }
  }

  /** The result is in key order. */
  lemma {:induction false} InsertionSortSorted<T>(key: T -> Option<real>, s: seq<T>)
    requires AllKeyed(key, s)
    ensures SortedBy(key, InsertionSort(key, s))
  {
    if s != [] {
      var t := s[..|s| - 1];
      InsertionSortSorted(key, t);
      InsertSorted(key, InsertionSort(key, t), s[|s| - 1]);
    }
  }

  lemma {:induction false} WithKeyAppend<T>(key: T -> Option<real>, a: seq<T>, b: seq<T>, k: real)
    requires AllKeyed(key, a) && AllKeyed(key, b)
    ensures AllKeyed(key, a + b)
    ensures WithKey(key, a + b, k) == WithKey(key, a, k) + WithKey(key, b, k)
  {
    if b != [] {
      var b' := b[..|b| - 1];
      assert (a + b)[..|a + b| - 1] == a + b';
      WithKeyAppend(key, a, b', k);
    } else {
      assert a + b == a;
    }
  }

  /** Inserting keeps the elements of each key in their order, with `x` last
      among the elements of its own key. */
  lemma {:induction false} InsertWithKey<T>(key: T -> Option<real>, s: seq<T>, x: T, k: real)
    requires AllKeyed(key, s) && key(x).Some?
    ensures WithKey(key, Insert(key, s, x), k)
         == WithKey(key, s, k) + (if key(x).value == k then [x] else [])
  {
    if s == [] {
      assert [x][..0] == [];
    } else if key(s[|s| - 1]).value <= key(x).value {
      WithKeyAppend(key, s, [x], k);
      assert [x][..0] == [];
    } else {
      InsertWithKey(key, s[..|s| - 1], x, k);
      InsertWithKeyPast(key, s, x, k);
    }
  }

  /** The case of `InsertWithKey` where `x` moves past the last element `l`:
      `l` has a greater key, so at most one of `x` and `l` has key `k`. */
  lemma InsertWithKeyPast<T>(key: T -> Option<real>, s: seq<T>, x: T, k: real)
    requires AllKeyed(key, s) && key(x).Some? && s != []
    requires key(s[|s| - 1]).value > key(x).value
    requires WithKey(key, Insert(key, s[..|s| - 1], x), k)
          == WithKey(key, s[..|s| - 1], k) + (if key(x).value == k then [x] else [])
    ensures WithKey(key, Insert(key, s, x), k)
         == WithKey(key, s, k) + (if key(x).value == k then [x] else [])
  {
    var t, l := s[..|s| - 1], s[|s| - 1];
    var xs := if key(x).value == k then [x] else [];
    var ls := if key(l).value == k then [l] else [];
    WithKeyAppend(key, Insert(key, t, x), [l], k);
    assert [l][..0] == [];
    assert xs == [] || ls == [];
    calc {
      WithKey(key, Insert(key, s, x), k);
      WithKey(key, Insert(key, t, x), k) + ls;
      WithKey(key, t, k) + xs + ls;
      { assert xs + ls == ls + xs; }
      WithKey(key, t, k) + ls + xs;
    }
  }

  /** The sort is stable: the elements sharing a key keep their relative order. */
  lemma {:induction false} InsertionSortStable<T>(key: T -> Option<real>, s: seq<T>, k: real)
    requires AllKeyed(key, s)
    ensures WithKey(key, InsertionSort(key, s), k) == WithKey(key, s, k)
  {
    if s != [] {
      var t := s[..|s| - 1];
      InsertionSortStable(key, t, k);
      InsertWithKey(key, InsertionSort(key, t), s[|s| - 1], k);
    }
  }

  /** Two sequences in key order that agree on the elements of every key, in
      order, are equal. */
  lemma {:induction false} SortedUnique<T>(key: T -> Option<real>, a: seq<T>, b: seq<T>)
    requires AllKeyed(key, a) && AllKeyed(key, b) && SortedBy(key, a) && SortedBy(key, b)
    requires forall k :: WithKey(key, a, k) == WithKey(key, b, k)
    ensures a == b
    decreases |a| + |b|
  {
    if a == [] && b != [] {
      WithKeyOfLast(key, b);
    } else if a != [] && b == [] {
      WithKeyOfLast(key, a);
    } else if a != [] {
      var a', b' := a[..|a| - 1], b[..|b| - 1];
      var la, lb := a[|a| - 1], b[|b| - 1];
      assert a == a' + [la] && b == b' + [lb];
      assert WithKey(key, a, key(la).value) == WithKey(key, b, key(la).value);
      assert WithKey(key, a, key(lb).value) == WithKey(key, b, key(lb).value);
      SameLast(key, a', la, b', lb);
      SamePrefixKeys(key, a', b', la);
      SortedPrefix(key, a);
      SortedPrefix(key, b);
      SortedUnique(key, a', b');
    }
  }

  lemma SortedPrefix<T>(key: T -> Option<real>, s: seq<T>)
    requires s != [] && AllKeyed(key, s) && SortedBy(key, s)
    ensures AllKeyed(key, s[..|s| - 1]) && SortedBy(key, s[..|s| - 1])
  {
  }

  /** Two sequences in key order with the same elements for the keys of their
      last elements end alike. */
  lemma SameLast<T>(key: T -> Option<real>, a': seq<T>, la: T, b': seq<T>, lb: T)
    requires key(la).Some? && key(lb).Some?
    requires AllKeyed(key, a' + [la]) && AllKeyed(key, b' + [lb])
    requires SortedBy(key, a' + [la]) && SortedBy(key, b' + [lb])
    requires WithKey(key, a' + [la], key(la).value) == WithKey(key, b' + [lb], key(la).value)
    requires WithKey(key, a' + [la], key(lb).value) == WithKey(key, b' + [lb], key(lb).value)
    ensures la == lb
  {
    var a, b := a' + [la], b' + [lb];
    var ka, kb := key(la).value, key(lb).value;
    WithKeyOfLast(key, a);
    WithKeyOfLast(key, b);
    SortedBelowLast(key, b, ka);
    SortedBelowLast(key, a, kb);
    SplitLast(key, a', la, ka);
    SplitLast(key, b', lb, ka);
    var x, y := WithKey(key, a', ka), WithKey(key, b', ka);
    assert (x + [la])[|x|] == la && (y + [lb])[|y|] == lb;
  }

  /** With the same last element, the prefixes have the same elements per key. */
  lemma SamePrefixKeys<T>(key: T -> Option<real>, a': seq<T>, b': seq<T>, l: T)
    requires key(l).Some? && AllKeyed(key, a' + [l]) && AllKeyed(key, b' + [l])
    requires forall k :: WithKey(key, a' + [l], k) == WithKey(key, b' + [l], k)
    ensures AllKeyed(key, a') && AllKeyed(key, b')
    ensures forall k :: WithKey(key, a', k) == WithKey(key, b', k)
  {
    assert forall i :: 0 <= i < |a'| ==> a'[i] == (a' + [l])[i];
    assert forall i :: 0 <= i < |b'| ==> b'[i] == (b' + [l])[i];
    forall k ensures WithKey(key, a', k) == WithKey(key, b', k) {
      SamePrefixKey(key, a', b', l, k);
    }
  }

  lemma SamePrefixKey<T>(key: T -> Option<real>, a': seq<T>, b': seq<T>, l: T, k: real)
    requires key(l).Some? && AllKeyed(key, a' + [l]) && AllKeyed(key, b' + [l])
    requires WithKey(key, a' + [l], k) == WithKey(key, b' + [l], k)
    ensures AllKeyed(key, a') && AllKeyed(key, b')
    ensures WithKey(key, a', k) == WithKey(key, b', k)
  {
    SplitLast(key, a', l, k);
    SplitLast(key, b', l, k);
    var x, y := WithKey(key, a', k), WithKey(key, b', k);
    if key(l).value == k {
      assert x + [l] == y + [l];
      assert (x + [l])[..|x|] == x;
      assert (y + [l])[..|y|] == y;
    } else {
      assert x + [] == x && y + [] == y;
    }
  }

  /** `WithKey` of a sequence with one more element at the end. */
  lemma SplitLast<T>(key: T -> Option<real>, s: seq<T>, l: T, k: real)
    requires key(l).Some? && AllKeyed(key, s + [l])
    ensures AllKeyed(key, s)
    ensures WithKey(key, s + [l], k) == WithKey(key, s, k) + (if key(l).value == k then [l] else [])
  {
    assert forall i :: 0 <= i < |s| ==> s[i] == (s + [l])[i];
    assert (s + [l])[..|s|] == s;
  }

  /** The last element is among the elements of its own key. */
  lemma WithKeyOfLast<T>(key: T -> Option<real>, s: seq<T>)
    requires s != [] && AllKeyed(key, s)
    ensures WithKey(key, s, key(s[|s| - 1]).value) != []
  {
  }

  /** In a sequence in key order, a key that some element carries is at most
      the key of the last element. */
  lemma SortedBelowLast<T>(key: T -> Option<real>, s: seq<T>, k: real)
    requires s != [] && AllKeyed(key, s) && SortedBy(key, s)
    requires WithKey(key, s, k) != []
    ensures k <= key(s[|s| - 1]).value
  {
    WithKeyFrom(key, s, k);
    var y := WithKey(key, s, k)[0];
    assert y in WithKey(key, s, k);
    var m :| 0 <= m < |s| && s[m] == y;
  }

  /** The elements of a key come from the sequence. */
  lemma {:induction false} WithKeyFrom<T>(key: T -> Option<real>, s: seq<T>, k: real)
    requires AllKeyed(key, s)
    ensures forall y :: y in WithKey(key, s, k) ==> y in s
  {
    if s != [] {
      WithKeyFrom(key, s[..|s| - 1], k);
    }
  }

  /** `InsertionSort` is the only stable sort: any sequence in key order that
      keeps the elements of every key in their input order is its result. */
  lemma StableSortIsUnique<T>(key: T -> Option<real>, s: seq<T>, t: seq<T>)
    requires AllKeyed(key, s) && AllKeyed(key, t) && SortedBy(key, t)
    requires forall k :: WithKey(key, t, k) == WithKey(key, s, k)
    ensures t == InsertionSort(key, s)
  {
    InsertionSortSorted(key, s);
    forall k ensures WithKey(key, InsertionSort(key, s), k) == WithKey(key, s, k) {
      InsertionSortStable(key, s, k);
    }
    SortedUnique(key, t, InsertionSort(key, s));
  }

  /** Sorting a sequence that is already in key order changes nothing. */
  lemma {:induction false} InsertionSortOfSorted<T>(key: T -> Option<real>, s: seq<T>)
    requires AllKeyed(key, s) && SortedBy(key, s)
    ensures InsertionSort(key, s) == s
  {
    if s != [] {
      var t := s[..|s| - 1];
      InsertionSortOfSorted(key, t);
      assert t + [s[|s| - 1]] == s;
    }
  }

  /** Where `Insert` puts `x`: after position `j` when every element from `j`
      on has a greater key and the element before `j`, if any, does not. */
  lemma {:induction false} InsertAt<T>(key: T -> Option<real>, p: seq<T>, j: nat, x: T)
    requires j <= |p| && AllKeyed(key, p) && key(x).Some?
    requires forall m :: j <= m < |p| ==> key(p[m]).value > key(x).value
    requires j > 0 ==> key(p[j - 1]).value <= key(x).value
    ensures Insert(key, p, x) == p[..j] + [x] + p[j..]
    decreases |p|
  {
    if j < |p| {
      var t, l := p[..|p| - 1], p[|p| - 1];
      assert key(l).value > key(x).value;
      assert Insert(key, p, x) == Insert(key, t, x) + [l];
      assert t[..j] == p[..j];
      assert j > 0 ==> t[j - 1] == p[j - 1];
      InsertAt(key, t, j, x);
      assert p[j..] == t[j..] + [l];
    } else {
      assert p[..j] == p && p[j..] == [];
    }
  }

  /** The inner loop: moves `a[i]` left past the greater keys before it,
      shifting them one place right. */
  method InsertInPlace<T>(a: array<T>, i: nat, key: T -> Option<real>)
    requires i < a.Length && AllKeyed(key, a[..i + 1])
    modifies a
    ensures a[..i + 1] == Insert(key, old(a[..i]), old(a[i]))
    ensures a[i + 1..] == old(a[i + 1..])
  {
    ghost var p := a[..i];
    var x := a[i];
    assert AllKeyed(key, p) && key(x).Some? by {
      assert forall m :: 0 <= m < i ==> p[m] == a[..i + 1][m];
      assert x == a[..i + 1][i];
    }
    var j := i;
    while j > 0 && key(a[j - 1]).value > key(x).value
      invariant 0 <= j <= i
      invariant forall m :: 0 <= m < j ==> a[m] == p[m]
      invariant forall m :: j < m <= i ==> a[m] == p[m - 1]
      invariant forall m :: i < m < a.Length ==> a[m] == old(a[m])
      invariant forall m :: j <= m < i ==> key(p[m]).value > key(x).value
    {
      a[j] := a[j - 1];
      j := j - 1;
    }
    a[j] := x;
    InsertAt(key, p, j, x);
    Placed(p, j, x, a[..i + 1]);
  }

  /** The array contents after the inner loop: the prefix up to `j`, then `x`,
      then the rest of the prefix shifted one place right. */
  lemma Placed<T>(p: seq<T>, j: nat, x: T, b: seq<T>)
    requires j <= |p| && |b| == |p| + 1 && b[j] == x
    requires forall m :: 0 <= m < j ==> b[m] == p[m]
    requires forall m :: j < m <= |p| ==> b[m] == p[m - 1]
    ensures b == p[..j] + [x] + p[j..]
  {
  }

  /** Sorting one more element of `s` inserts it into the sorted prefix. */
  lemma SortStep<T>(key: T -> Option<real>, s: seq<T>, i: nat)
    requires AllKeyed(key, s) && i < |s|
    ensures AllKeyed(key, s[..i]) && AllKeyed(key, s[..i + 1])
    ensures AllKeyed(key, InsertionSort(key, s[..i]) + [s[i]])
    ensures InsertionSort(key, s[..i + 1]) == Insert(key, InsertionSort(key, s[..i]), s[i])
  {
    assert s[..i + 1][..i] == s[..i];
  }

  /** Sorts `a` in place, inserting each element into the sorted prefix before it. */
  method SortInPlace<T>(a: array<T>, key: T -> Option<real>)
    requires AllKeyed(key, a[..])
    modifies a
    ensures a[..] == InsertionSort(key, old(a[..]))
    ensures SortedBy(key, a[..]) && multiset(a[..]) == multiset(old(a[..]))
  {
    ghost var s := a[..];
    for i := 0 to a.Length
      invariant a[..i] == InsertionSort(key, s[..i])
      invariant a[i..] == s[i..]
    {
      SortStep(key, s, i);
      ghost var before := a[..];
      assert a[i] == s[i] by {
        assert a[i..][0] == s[i..][0];
      }
      assert a[..i + 1] == a[..i] + [s[i]];
      InsertInPlace(a, i, key);
      assert a[i + 1..] == s[i + 1..] by {
        assert before[i + 1..] == s[i + 1..] by {
          assert before[i..] == s[i..];
        }
      }
    }
    assert a[..] == a[..a.Length] && s == s[..a.Length];
    InsertionSortSorted(key, s);
    InsertionSortPermutes(key, s);
  }
}
