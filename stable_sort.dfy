/** Sorting a list in place by an integer key, keeping the relative order of
    elements with equal keys. `SortBy` is the specification (insertion of each
    element after everything whose key is not larger); `SortInPlace` performs it
    on an array. `SortByIsTheStableSort` shows that every stable sort by the same
    key produces the same list, so the specification stands for any of them. */
module StableSort {
  import opened Sequences

  ghost predicate SortedBy<T>(s: seq<T>, key: T -> int)
  {
    forall i, j :: 0 <= i < j < |s| ==> key(s[i]) <= key(s[j])
  }

  /** Selects the elements whose key is `k`. */
  function HasKey<T>(key: T -> int, k: int): T -> bool
  {
    (x: T) => key(x) == k
  }

  /** Keeping, for every key value, the elements with that key in the same order. */
  ghost predicate SameKeyOrder<T>(r: seq<T>, s: seq<T>, key: T -> int)
  {
    forall k :: Filter(r, HasKey(key, k)) == Filter(s, HasKey(key, k))
  }

  /** `s` with `x` placed after its last element whose key is at most `key(x)`. */
  function Insert<T>(x: T, s: seq<T>, key: T -> int): (r: seq<T>)
    ensures |r| == |s| + 1
    decreases |s|
  {
    if s == [] || key(s[|s| - 1]) <= key(x) then s + [x]
    else Insert(x, s[..|s| - 1], key) + [s[|s| - 1]]
  }

  function SortBy<T>(s: seq<T>, key: T -> int): (r: seq<T>)
    ensures |r| == |s|
    decreases |s|
  {
    if s == [] then [] else Insert(s[|s| - 1], SortBy(s[..|s| - 1], key), key)
  }

  lemma {:induction false} InsertSorted<T>(x: T, s: seq<T>, key: T -> int)
    requires SortedBy(s, key)
    ensures SortedBy(Insert(x, s, key), key)
    ensures forall i :: 0 <= i < |s| + 1 ==>
      Insert(x, s, key)[i] == x || Insert(x, s, key)[i] in s
    decreases |s|
  {
    if s != [] && key(s[|s| - 1]) > key(x) {
      var init, last := s[..|s| - 1], s[|s| - 1];
      InsertSorted(x, init, key);
      var r := Insert(x, init, key);
      assert forall i :: 0 <= i < |r| ==> r[i] == x || r[i] in init;
      forall i | 0 <= i < |r| ensures key(r[i]) <= key(last) {
        if r[i] != x {
          var j :| 0 <= j < |init| && init[j] == r[i];
          assert s[j] == init[j];
        }
      }
    }
  }

  /** The result of `SortBy` is ordered by key. */
  lemma {:induction false} SortBySorted<T>(s: seq<T>, key: T -> int)
    ensures SortedBy(SortBy(s, key), key)
    decreases |s|
  {
    if s != [] {
      SortBySorted(s[..|s| - 1], key);
      InsertSorted(s[|s| - 1], SortBy(s[..|s| - 1], key), key);
    }
  }

  lemma {:induction false} InsertPermutation<T>(x: T, s: seq<T>, key: T -> int)
    ensures multiset(Insert(x, s, key)) == multiset(s) + multiset{x}
    decreases |s|
  {
    if s != [] && key(s[|s| - 1]) > key(x) {
      var init, last := s[..|s| - 1], s[|s| - 1];
      InsertPermutation(x, init, key);
      assert s == init + [last];
    }
  }

  /** `SortBy` rearranges its input: same elements, each as often. */
  lemma {:induction false} SortByPermutation<T>(s: seq<T>, key: T -> int)
    ensures multiset(SortBy(s, key)) == multiset(s)
    decreases |s|
  {
    if s != [] {
      var init, last := s[..|s| - 1], s[|s| - 1];
      SortByPermutation(init, key);
      InsertPermutation(last, SortBy(init, key), key);
      assert s == init + [last];
    }
  }

  lemma {:induction false} InsertKeyOrder<T>(x: T, s: seq<T>, key: T -> int, k: int)
    ensures Filter(Insert(x, s, key), HasKey(key, k)) == Filter(s, HasKey(key, k)) + Filter([x], HasKey(key, k))
    decreases |s|
  {
    var p := HasKey(key, k);
    if s == [] || key(s[|s| - 1]) <= key(x) {
      FilterAppend(s, [x], p);
    } else {
      var init, last := s[..|s| - 1], s[|s| - 1];
      InsertKeyOrder(x, init, key, k);
      FilterAppend(Insert(x, init, key), [last], p);
      FilterAppend(init, [last], p);
      assert s == init + [last];
      // x and last have different keys, so at most one of them is selected
      assert Filter([x], p) == [] || Filter([last], p) == [];
    }
  }

  /** `SortBy` is stable: elements with equal keys keep their relative order. */
  lemma {:induction false} SortByStable<T>(s: seq<T>, key: T -> int)
    ensures SameKeyOrder(SortBy(s, key), s, key)
    decreases |s|
  {
    if s != [] {
      var init, last := s[..|s| - 1], s[|s| - 1];
      SortByStable(init, key);
      assert s == init + [last];
      forall k ensures Filter(SortBy(s, key), HasKey(key, k)) == Filter(s, HasKey(key, k)) {
        InsertKeyOrder(last, SortBy(init, key), key, k);
        FilterAppend(init, [last], HasKey(key, k));
      }
    }
  }

  lemma FilterLast<T>(s: seq<T>, p: T -> bool)
    requires s != []
    ensures Filter(s, p) == Filter(s[..|s| - 1], p) + (if p(s[|s| - 1]) then [s[|s| - 1]] else [])
  {
    FilterAppend(s[..|s| - 1], [s[|s| - 1]], p);
    assert s == s[..|s| - 1] + [s[|s| - 1]];
  }

  lemma KeyPresent<T>(r: seq<T>, x: T, key: T -> int)
    requires x in r
    ensures Filter(r, HasKey(key, key(x))) != []
  {
    var i :| 0 <= i < |r| && r[i] == x;
    assert HasKey(key, key(x))(r[i]);
  }

  /** In a key-ordered list, every key that occurs is at most the last element's key. */
  lemma KeyBelowLast<T>(r: seq<T>, k: int, key: T -> int)
    requires r != [] && SortedBy(r, key) && Filter(r, HasKey(key, k)) != []
    ensures k <= key(r[|r| - 1])
  {
    var y := Filter(r, HasKey(key, k))[0];
    var i :| 0 <= i < |r| && r[i] == y;
    if i < |r| - 1 {
      assert key(r[i]) <= key(r[|r| - 1]);
    }
  }

  /** The last elements of two key-ordered lists that agree on every key's elements share a key. */
  lemma LastKeysAgree<T>(r1: seq<T>, r2: seq<T>, key: T -> int)
    requires r1 != [] && r2 != []
    requires SortedBy(r1, key) && SortedBy(r2, key) && SameKeyOrder(r1, r2, key)
    ensures key(r1[|r1| - 1]) == key(r2[|r2| - 1])
  {
    var k1, k2 := key(r1[|r1| - 1]), key(r2[|r2| - 1]);
    KeyPresent(r2, r2[|r2| - 1], key);
    assert Filter(r1, HasKey(key, k2)) == Filter(r2, HasKey(key, k2));
    KeyBelowLast(r1, k2, key);
    KeyPresent(r1, r1[|r1| - 1], key);
    assert Filter(r1, HasKey(key, k1)) == Filter(r2, HasKey(key, k1));
    KeyBelowLast(r2, k1, key);
  }

  lemma AppendCancel<T>(a: seq<T>, b: seq<T>, x: T, y: T)
    requires a + [x] == b + [y]
    ensures a == b && x == y
  {
    assert |a| == |b|;
    assert a == (a + [x])[..|a|];
    assert b == (b + [y])[..|b|];
    assert x == (a + [x])[|a|];
  }

  /** Dropping the last elements of two lists that a filter cannot tell apart. */
  lemma DropLastFilter<T>(r1: seq<T>, r2: seq<T>, p: T -> bool)
    requires r1 != [] && r2 != [] && Filter(r1, p) == Filter(r2, p)
    requires p(r1[|r1| - 1]) == p(r2[|r2| - 1])
    ensures Filter(r1[..|r1| - 1], p) == Filter(r2[..|r2| - 1], p)
    ensures p(r1[|r1| - 1]) ==> r1[|r1| - 1] == r2[|r2| - 1]
  {
    var x1, x2 := r1[|r1| - 1], r2[|r2| - 1];
    var f1, f2 := Filter(r1[..|r1| - 1], p), Filter(r2[..|r2| - 1], p);
    FilterLast(r1, p);
    FilterLast(r2, p);
    if p(x1) {
      AppendCancel(f1, f2, x1, x2);
    } else {
      assert f1 + [] == f1 && f2 + [] == f2;
    }
  }

  lemma InitsKeyOrder<T>(r1: seq<T>, r2: seq<T>, key: T -> int)
    requires r1 != [] && r2 != [] && SameKeyOrder(r1, r2, key)
    requires key(r1[|r1| - 1]) == key(r2[|r2| - 1])
    ensures r1[|r1| - 1] == r2[|r2| - 1]
    ensures SameKeyOrder(r1[..|r1| - 1], r2[..|r2| - 1], key)
  {
    var x1 := r1[|r1| - 1];
    DropLastFilter(r1, r2, HasKey(key, key(x1)));
    forall k ensures Filter(r1[..|r1| - 1], HasKey(key, k)) == Filter(r2[..|r2| - 1], HasKey(key, k)) {
      DropLastFilter(r1, r2, HasKey(key, k));
    }
  }

  /** Two lists ordered by key that agree on the order of every key's elements are equal. */
  lemma {:induction false} StableSortUnique<T>(r1: seq<T>, r2: seq<T>, key: T -> int)
    requires SortedBy(r1, key) && SortedBy(r2, key) && SameKeyOrder(r1, r2, key)
    ensures r1 == r2
    decreases |r1|
  {
    if r1 == [] {
      if r2 != [] {
        KeyPresent(r2, r2[0], key);
      }
    } else if r2 == [] {
      KeyPresent(r1, r1[0], key);
    } else {
      LastKeysAgree(r1, r2, key);
      InitsKeyOrder(r1, r2, key);
      var i1, i2 := r1[..|r1| - 1], r2[..|r2| - 1];
      StableSortUnique(i1, i2, key);
      assert r1 == i1 + [r1[|r1| - 1]] && r2 == i2 + [r2[|r2| - 1]];
    }
  }

  /** Any list ordered by key that keeps each key's elements in input order is `SortBy`'s result. */
  lemma SortByIsTheStableSort<T>(s: seq<T>, r: seq<T>, key: T -> int)
    requires SortedBy(r, key) && SameKeyOrder(r, s, key)
    ensures r == SortBy(s, key)
  {
    SortBySorted(s, key);
    SortByStable(s, key);
    StableSortUnique(r, SortBy(s, key), key);
  }

  lemma InsertPastLast<T>(x: T, sorted: seq<T>, j: nat, key: T -> int)
    requires 0 < j <= |sorted| && key(sorted[j - 1]) > key(x)
    ensures Insert(x, sorted[..j], key) + sorted[j..] == Insert(x, sorted[..j - 1], key) + sorted[j - 1..]
  {
    assert sorted[..j][..j - 1] == sorted[..j - 1];
    assert sorted[j - 1..] == [sorted[j - 1]] + sorted[j..];
  }

  lemma InsertStops<T>(x: T, sorted: seq<T>, j: nat, key: T -> int)
    requires j <= |sorted| && (j == 0 || key(sorted[j - 1]) <= key(x))
    ensures Insert(x, sorted[..j], key) == sorted[..j] + [x]
  {
  }

  /** A list holding `sorted[..j]`, then `x`, then the rest of `sorted` one place later. */
  lemma ShiftedLayout<T>(b: seq<T>, sorted: seq<T>, x: T, j: nat)
    requires |b| == |sorted| + 1 && j <= |sorted| && b[j] == x
    requires forall k :: 0 <= k < j ==> b[k] == sorted[k]
    requires forall k :: j < k < |b| ==> b[k] == sorted[k - 1]
    ensures b == sorted[..j] + [x] + sorted[j..]
  {
  }

  /** Moves `a[i]` left past every element of the sorted prefix `a[..i]` with a larger key. */
  method InsertAt<T>(a: array<T>, i: nat, key: T -> int)
    requires i < a.Length
    modifies a
    ensures a[..i + 1] == Insert(old(a[i]), old(a[..i]), key)
    ensures a[i + 1..] == old(a[i + 1..])
  {
    ghost var sorted := a[..i];
    ghost var x := a[i];
    var j := i;
    assert sorted[..j] == sorted && sorted[j..] == [];
    while j > 0 && key(a[j - 1]) > key(a[j])
      invariant 0 <= j <= i
      invariant a[j] == x
      invariant forall k :: 0 <= k < j ==> a[k] == sorted[k]
      invariant forall k :: j < k <= i ==> a[k] == sorted[k - 1]
      invariant forall k :: i < k < a.Length ==> a[k] == old(a[k])
      invariant Insert(x, sorted, key) == Insert(x, sorted[..j], key) + sorted[j..]
    {
      InsertPastLast(x, sorted, j, key);
      a[j - 1], a[j] := a[j], a[j - 1];
      j := j - 1;
    }
    InsertStops(x, sorted, j, key);
    ShiftedLayout(a[..i + 1], sorted, x, j);
  }

  /** Sorts `a` by `key`, stably, inserting each element into the sorted prefix before it. */
  method SortInPlace<T>(a: array<T>, key: T -> int)
    modifies a
    ensures a[..] == SortBy(old(a[..]), key)
  {
    ghost var input := a[..];
    var i := 0;
    while i < a.Length
      invariant 0 <= i <= a.Length
      invariant a[..i] == SortBy(input[..i], key)
      invariant a[i..] == input[i..]
    {
      InsertAt(a, i, key);
      assert input[..i + 1][..i] == input[..i];
      i := i + 1;
    }
    assert input[..a.Length] == input;
  }
}
