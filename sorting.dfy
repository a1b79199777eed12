/** Stable sorting by a three-way comparator, the model of Java's `List.sort`
    and `Stream.sorted` and of JavaScript's `Array.prototype.sort` (all stable).
    A comparator returns a negative number, zero or a positive number; only the
    sign matters. */
module Sorting {
  import opened Seqs

  /** Every adjacent pair is in order: the comparator never says the earlier
      element belongs after the later one. */
  ghost predicate Sorted<T>(s: seq<T>, cmp: (T, T) -> int) {
    forall i :: 0 < i < |s| ==> cmp(s[i - 1], s[i]) <= 0
  }

  /** If `a` belongs after `b`, then `b` does not belong after `a`. */
  ghost predicate Antisymmetric<T(!new)>(cmp: (T, T) -> int) {
    forall a, b :: cmp(a, b) > 0 ==> cmp(b, a) <= 0
  }

  /** Three-way comparison of two numbers. */
  function CompareInts(x: int, y: int): (r: int)
    ensures r < 0 <==> x < y
    ensures r == 0 <==> x == y
  {
    if x < y then -1 else if x == y then 0 else 1
  }

  /** Inserts `x` into `s` from the right, after every element that is not
      greater than it, so equal elements keep their order. */
  function Insert<T>(s: seq<T>, x: T, cmp: (T, T) -> int): seq<T> {
    if s == [] then [x]
    else if cmp(s[|s| - 1], x) > 0 then Insert(s[..|s| - 1], x, cmp) + [s[|s| - 1]]
    else s + [x]
  }

  /** Stable insertion sort: the order a stable sort produces. */
  function InsertionSort<T>(s: seq<T>, cmp: (T, T) -> int): seq<T> {
    if s == [] then [] else Insert(InsertionSort(s[..|s| - 1], cmp), s[|s| - 1], cmp)
  }

  lemma {:induction false} InsertCounts<T>(s: seq<T>, x: T, cmp: (T, T) -> int)
    ensures multiset(Insert(s, x, cmp)) == multiset(s) + multiset{x}
  {
    if s != [] && cmp(s[|s| - 1], x) > 0 {
      InsertCounts(s[..|s| - 1], x, cmp);
      assert s == s[..|s| - 1] + [s[|s| - 1]];
    }
  }

  lemma {:induction false} InsertSorted<T(!new)>(s: seq<T>, x: T, cmp: (T, T) -> int)
    requires Antisymmetric(cmp) && Sorted(s, cmp)
    ensures Sorted(Insert(s, x, cmp), cmp)
    ensures Insert(s, x, cmp) != []
    ensures Insert(s, x, cmp)[|Insert(s, x, cmp)| - 1]
         == if s != [] && cmp(s[|s| - 1], x) > 0 then s[|s| - 1] else x
  {
    if s != [] && cmp(s[|s| - 1], x) > 0 {
      var p := s[..|s| - 1];
      InsertSorted(p, x, cmp);
      var q := Insert(p, x, cmp);
      var last := q[|q| - 1];
      assert cmp(last, s[|s| - 1]) <= 0 by {
        if p != [] && cmp(p[|p| - 1], x) > 0 {
          assert last == s[|s| - 2];
        } else {
          assert last == x;
        }
      }
    }
  }

  /** Insertion sort returns a sorted rearrangement of its input. */
  lemma InsertionSortFacts<T(!new)>(s: seq<T>, cmp: (T, T) -> int)
    requires Antisymmetric(cmp)
    ensures Sorted(InsertionSort(s, cmp), cmp)
    ensures multiset(InsertionSort(s, cmp)) == multiset(s)
    ensures |InsertionSort(s, cmp)| == |s|
  {
    InsertionSortSorted(s, cmp);
    InsertionSortCounts(s, cmp);
    assert |multiset(InsertionSort(s, cmp))| == |multiset(s)|;
  }

  lemma {:induction false} InsertionSortSorted<T(!new)>(s: seq<T>, cmp: (T, T) -> int)
    requires Antisymmetric(cmp)
    ensures Sorted(InsertionSort(s, cmp), cmp)
  {
    if s != [] {
      InsertionSortSorted(s[..|s| - 1], cmp);
      InsertSorted(InsertionSort(s[..|s| - 1], cmp), s[|s| - 1], cmp);
    }
  }

  /** Sorting an already sorted sequence gives it back unchanged, so sorting
      twice is sorting once. */
  lemma {:induction false} InsertionSortOfSorted<T>(s: seq<T>, cmp: (T, T) -> int)
    requires Sorted(s, cmp)
    ensures InsertionSort(s, cmp) == s
  {
    if s != [] {
      var p := s[..|s| - 1];
      assert Sorted(p, cmp);
      InsertionSortOfSorted(p, cmp);
      assert p != [] ==> cmp(p[|p| - 1], s[|s| - 1]) <= 0;
      assert Insert(p, s[|s| - 1], cmp) == p + [s[|s| - 1]];
      assert s == p + [s[|s| - 1]];
    }
  }

  /** Sorting neither adds nor drops an element. */
  lemma SortedMembers<T>(s: seq<T>, cmp: (T, T) -> int)
    ensures forall x :: x in InsertionSort(s, cmp) <==> x in s
  {
    InsertionSortCounts(s, cmp);
    forall x ensures x in InsertionSort(s, cmp) <==> x in s {
      assert x in InsertionSort(s, cmp) <==> x in multiset(InsertionSort(s, cmp));
    }
  }

  /** Sorting keeps keys distinct. */
  lemma {:induction false} InsertionSortDistinctKeys<T>(s: seq<T>, cmp: (T, T) -> int, key: T -> string)
    requires DistinctKeys(s, key)
    ensures DistinctKeys(InsertionSort(s, cmp), key)
  {
    if s != [] {
      var p := s[..|s| - 1];
      var x := s[|s| - 1];
      InsertionSortDistinctKeys(p, cmp, key);
      InsertionSortCounts(p, cmp);
      forall y | y in InsertionSort(p, cmp) ensures key(y) != key(x) {
        assert y in multiset(p);
        var i :| 0 <= i < |p| && p[i] == y;
        assert s[i] == y;
      }
      InsertDistinctKeys(InsertionSort(p, cmp), x, cmp, key);
    }
  }

  lemma {:induction false} InsertionSortCounts<T>(s: seq<T>, cmp: (T, T) -> int)
    ensures multiset(InsertionSort(s, cmp)) == multiset(s)
  {
    if s != [] {
      var p := s[..|s| - 1];
      InsertionSortCounts(p, cmp);
      InsertCounts(InsertionSort(p, cmp), s[|s| - 1], cmp);
      assert s == p + [s[|s| - 1]];
    }
  }

  lemma {:induction false} InsertDistinctKeys<T>(s: seq<T>, x: T, cmp: (T, T) -> int, key: T -> string)
    requires DistinctKeys(s, key)
    requires forall y :: y in s ==> key(y) != key(x)
    ensures DistinctKeys(Insert(s, x, cmp), key)
  {
    if s != [] && cmp(s[|s| - 1], x) > 0 {
      var p := s[..|s| - 1];
      var last := s[|s| - 1];
      InsertDistinctKeys(p, x, cmp, key);
      InsertCounts(p, x, cmp);
      var q := Insert(p, x, cmp);
      forall y | y in q ensures key(y) != key(last) {
        assert y in multiset(p) + multiset{x};
        if y != x {
          var i :| 0 <= i < |p| && p[i] == y;
          assert s[i] == y;
        }
      }
    }
  }

  /** `Insert` puts `x` right after the last element not greater than it:
      every element from `j` on is greater than `x`, and the one before `j`
      (if any) is not. */
  lemma {:induction false} InsertAt<T>(s: seq<T>, j: int, x: T, cmp: (T, T) -> int)
    requires 0 <= j <= |s|
    requires forall k :: j <= k < |s| ==> cmp(s[k], x) > 0
    requires j == 0 || cmp(s[j - 1], x) <= 0
    ensures Insert(s, x, cmp) == s[..j] + [x] + s[j..]
  {
    if j < |s| {
      var p := s[..|s| - 1];
      InsertAt(p, j, x, cmp);
      assert p[..j] == s[..j];
      assert p[j..] + [s[|s| - 1]] == s[j..];
    } else {
      assert s[..j] == s;
    }
  }

  /** The array contents while an element is being inserted: the sorted
      prefix split at the hole `j`, the hole holding `h`, then the untouched
      rest. */
  function WithHole<T>(sorted: seq<T>, j: int, h: T, rest: seq<T>): seq<T>
    requires 0 <= j <= |sorted|
  {
    sorted[..j] + [h] + sorted[j..] + rest
  }

  /** Copying the element left of the hole into it moves the hole one place left. */
  lemma ShiftHole<T>(sorted: seq<T>, j: int, h: T, rest: seq<T>)
    requires 0 < j <= |sorted|
    ensures WithHole(sorted, j, h, rest)[j := sorted[j - 1]]
         == WithHole(sorted, j - 1, sorted[j - 1], rest)
  {
    var u := WithHole(sorted, j, h, rest)[j := sorted[j - 1]];
    var w := WithHole(sorted, j - 1, sorted[j - 1], rest);
    assert |u| == |w|;
    forall k | 0 <= k < |u| ensures u[k] == w[k] {
      if k < j - 1 {
      } else if k == j - 1 || k == j {
      } else if k <= |sorted| {
        assert u[k] == sorted[k - 1];
      } else {
        assert u[k] == rest[k - |sorted| - 1];
      }
    }
  }

  /** Filling the hole with `x` leaves the sorted prefix with `x` at `j`,
      followed by the untouched rest. */
  lemma FillHole<T>(sorted: seq<T>, j: int, h: T, rest: seq<T>, x: T)
    requires 0 <= j <= |sorted|
    ensures WithHole(sorted, j, h, rest)[j := x][..|sorted| + 1] == sorted[..j] + [x] + sorted[j..]
    ensures WithHole(sorted, j, h, rest)[j := x][|sorted| + 1..] == rest
  {
    var u := WithHole(sorted, j, h, rest)[j := x];
    assert u == (sorted[..j] + [x] + sorted[j..]) + rest;
  }

  /** Moves `a[i]` leftwards into the sorted prefix `a[..i]`, shifting the
      greater elements one place right; the rest of the array is untouched. */
  method InsertInPlace<T>(a: array<T>, i: int, cmp: (T, T) -> int)
    requires 0 <= i < a.Length
    modifies a
    ensures a[..i + 1] == Insert(old(a[..i]), old(a[i]), cmp)
    ensures a[i + 1..] == old(a[i + 1..])
  {
    ghost var sorted := a[..i];
    ghost var rest := a[i + 1..];
    var x := a[i];
    assert a[..] == a[..i] + [a[i]] + a[i + 1..];
    var j, h := ShiftGreater(a, i, x, cmp, sorted, rest);
    InsertAt(sorted, j, x, cmp);
    FillHole(sorted, j, h, rest, x);
    ghost var before := a[..];
    a[j] := x;
    assert a[..] == before[j := x];
    assert a[..i + 1] == a[..][..i + 1];
  }

  /** The shifting loop: moves every element of the prefix that is greater
      than `x` one place right, leaving a hole at `j` (holding a stale copy
      `h` of an element already moved). */
  method ShiftGreater<T>(a: array<T>, i: int, x: T, cmp: (T, T) -> int,
                         ghost sorted: seq<T>, ghost rest: seq<T>)
    returns (j: int, ghost h: T)
    requires 0 <= i == |sorted| < a.Length
    requires a[..] == WithHole(sorted, i, x, rest)
    modifies a
    ensures 0 <= j <= i
    ensures a[..] == WithHole(sorted, j, h, rest)
    ensures forall k :: j <= k < i ==> cmp(sorted[k], x) > 0
    ensures j == 0 || cmp(sorted[j - 1], x) <= 0
  {
    j := i;
    h := x;
    while j > 0 && cmp(a[j - 1], x) > 0
      invariant 0 <= j <= i
      invariant a[..] == WithHole(sorted, j, h, rest)
      invariant forall k :: j <= k < i ==> cmp(sorted[k], x) > 0
    {
      assert a[j - 1] == sorted[j - 1];
      ShiftHole(sorted, j, h, rest);
      ghost var before := a[..];
      a[j] := a[j - 1];
      assert a[..] == before[j := sorted[j - 1]];
      h := sorted[j - 1];
      j := j - 1;
    }
    assert j > 0 ==> a[j - 1] == sorted[j - 1];
  }

  /** In-place stable insertion sort of an array; it leaves the array holding
      exactly what the pure `InsertionSort` specifies. */
  method SortInPlace<T>(a: array<T>, cmp: (T, T) -> int)
    modifies a
    ensures a[..] == InsertionSort(old(a[..]), cmp)
  {
    ghost var input := a[..];
    var i := 0;
    while i < a.Length
      invariant 0 <= i <= a.Length
      invariant a[..i] == InsertionSort(input[..i], cmp)
      invariant a[i..] == input[i..]
    {
      ghost var prefix := a[..i];
      assert a[i] == input[i] && a[i + 1..] == input[i + 1..] by {
        assert a[i..] == [a[i]] + a[i + 1..];
        assert input[i..] == [input[i]] + input[i + 1..];
      }
      InsertInPlace(a, i, cmp);
      assert input[..i + 1][..i] == input[..i];
      assert InsertionSort(input[..i + 1], cmp) == Insert(prefix, input[i], cmp);
      i := i + 1;
    }
    assert a[..] == a[..a.Length];
    assert input[..a.Length] == input;
  }

  /** `list.sort(cmp)` on a list: the list is copied into an array, sorted in
      place, and read back. */
  method SortList<T>(s: seq<T>, cmp: (T, T) -> int) returns (r: seq<T>)
    ensures r == InsertionSort(s, cmp)
  {
    var a := new T[|s|](k requires 0 <= k < |s| => s[k]);
    assert a[..] == s;
    SortInPlace(a, cmp);
    r := a[..];
  }
}
