/** Generic facts about sequences used throughout the model: order-preserving
    filtering, grouping by a string key, sums and duplicate-freedom. */
module Seqs {

  /** `xs.filter(keep)`: the elements that satisfy `keep`, in their order. */
  function Filter<T>(xs: seq<T>, keep: T -> bool): seq<T> {
    if xs == [] then []
    else Filter(xs[..|xs| - 1], keep) + (if keep(xs[|xs| - 1]) then [xs[|xs| - 1]] else [])
  }

  /** `a` is `b` with some elements left out, the rest in the same order. */
  ghost predicate IsSubsequence<T>(a: seq<T>, b: seq<T>)
    decreases |b|
  {
    a == []
    || (b != []
        && ((a[|a| - 1] == b[|b| - 1] && IsSubsequence(a[..|a| - 1], b[..|b| - 1]))
            || IsSubsequence(a, b[..|b| - 1])))
  }

  /** Filtering keeps each element satisfying `keep` as often as it occurs and
      drops every other element. */
  lemma {:induction false} FilterCounts<T>(xs: seq<T>, keep: T -> bool)
    ensures forall x :: multiset(Filter(xs, keep))[x] == if keep(x) then multiset(xs)[x] else 0
    ensures forall x :: x in Filter(xs, keep) <==> x in xs && keep(x)
    ensures forall i :: 0 <= i < |Filter(xs, keep)| ==> keep(Filter(xs, keep)[i])
  {
    if xs != [] {
      var p := xs[..|xs| - 1];
      FilterCounts(p, keep);
      assert xs == p + [xs[|xs| - 1]];
    }
  }

  /** Filtering never reorders: the result is a subsequence of the input. */
  lemma {:induction false} FilterIsSubsequence<T>(xs: seq<T>, keep: T -> bool)
    ensures IsSubsequence(Filter(xs, keep), xs)
  {
    if xs != [] {
      var p := xs[..|xs| - 1];
      FilterIsSubsequence(p, keep);
      var f := Filter(xs, keep);
      if keep(xs[|xs| - 1]) {
        assert f[..|f| - 1] == Filter(p, keep);
      } else {
        assert f == Filter(p, keep);
        if f != [] {
          assert IsSubsequence(f, p);
        }
      }
    }
  }

  /** Filtering a sequence whose elements all pass changes nothing. */
  lemma {:induction false} FilterKeepsAll<T>(xs: seq<T>, keep: T -> bool)
    requires forall i :: 0 <= i < |xs| ==> keep(xs[i])
    ensures Filter(xs, keep) == xs
  {
    if xs != [] {
      FilterKeepsAll(xs[..|xs| - 1], keep);
      assert xs == xs[..|xs| - 1] + [xs[|xs| - 1]];
    }
  }

  /** Filtering twice with the same test is filtering once. */
  lemma FilterIdempotent<T>(xs: seq<T>, keep: T -> bool)
    ensures Filter(Filter(xs, keep), keep) == Filter(xs, keep)
  {
    var f := Filter(xs, keep);
    FilterCounts(xs, keep);
    FilterKeepsAll(f, keep);
  }

  /** The elements whose key is `k`, in their order. */
  function WithKey<T>(xs: seq<T>, key: T -> string, k: string): seq<T> {
    if xs == [] then []
    else WithKey(xs[..|xs| - 1], key, k) + (if key(xs[|xs| - 1]) == k then [xs[|xs| - 1]] else [])
  }

  /** The distinct keys of `xs`, in order of first occurrence. */
  function KeysInOrder<T>(xs: seq<T>, key: T -> string): seq<string> {
    if xs == [] then []
    else
      var ks := KeysInOrder(xs[..|xs| - 1], key);
      if key(xs[|xs| - 1]) in ks then ks else ks + [key(xs[|xs| - 1])]
  }

  lemma WithKeyAppend<T>(xs: seq<T>, x: T, key: T -> string, k: string)
    ensures WithKey(xs + [x], key, k) == WithKey(xs, key, k) + (if key(x) == k then [x] else [])
  {
    assert (xs + [x])[..|xs|] == xs;
  }

  lemma KeysInOrderAppend<T>(xs: seq<T>, x: T, key: T -> string)
    ensures KeysInOrder(xs + [x], key)
         == if key(x) in KeysInOrder(xs, key) then KeysInOrder(xs, key) else KeysInOrder(xs, key) + [key(x)]
  {
    assert (xs + [x])[..|xs|] == xs;
  }

  /** Every element of a key group has that key and comes from the input. */
  lemma {:induction false} WithKeyMembers<T>(xs: seq<T>, key: T -> string, k: string)
    ensures forall i :: 0 <= i < |WithKey(xs, key, k)| ==> key(WithKey(xs, key, k)[i]) == k
    ensures |WithKey(xs, key, k)| <= |xs|
    ensures forall x :: x in WithKey(xs, key, k) <==> x in xs && key(x) == k
  {
    if xs != [] {
      WithKeyMembers(xs[..|xs| - 1], key, k);
      assert xs == xs[..|xs| - 1] + [xs[|xs| - 1]];
    }
  }

  ghost predicate NoDup<T>(s: seq<T>) {
    forall i, j :: 0 <= i < j < |s| ==> s[i] != s[j]
  }

  /** No two elements share a key. */
  predicate DistinctKeys<T>(s: seq<T>, key: T -> string) {
    forall i, j :: 0 <= i < j < |s| ==> key(s[i]) != key(s[j])
  }

  /** The key list has no duplicate, and a key is listed exactly when some
      element carries it. */
  lemma {:induction false} KeysInOrderFacts<T>(xs: seq<T>, key: T -> string)
    ensures NoDup(KeysInOrder(xs, key))
    ensures forall k :: k in KeysInOrder(xs, key) <==> WithKey(xs, key, k) != []
    ensures forall k :: k in KeysInOrder(xs, key) <==> exists x :: x in xs && key(x) == k
  {
    if xs != [] {
      var p := xs[..|xs| - 1];
      var x := xs[|xs| - 1];
      KeysInOrderFacts(p, key);
      assert xs == p + [x];
    }
  }

  /** Sum of the sizes of the groups of the keys `ks`. */
  function SumSizes<T>(ks: seq<string>, xs: seq<T>, key: T -> string): int {
    if ks == [] then 0
    else SumSizes(ks[..|ks| - 1], xs, key) + |WithKey(xs, key, ks[|ks| - 1])|
  }

  lemma {:induction false} SumSizesUnchanged<T>(ks: seq<string>, xs: seq<T>, x: T, key: T -> string)
    requires key(x) !in ks
    ensures SumSizes(ks, xs + [x], key) == SumSizes(ks, xs, key)
  {
    if ks != [] {
      SumSizesUnchanged(ks[..|ks| - 1], xs, x, key);
      WithKeyAppend(xs, x, key, ks[|ks| - 1]);
    }
  }

  lemma {:induction false} SumSizesBump<T>(ks: seq<string>, xs: seq<T>, x: T, key: T -> string)
    requires NoDup(ks) && key(x) in ks
    ensures SumSizes(ks, xs + [x], key) == SumSizes(ks, xs, key) + 1
  {
    var p := ks[..|ks| - 1];
    var k := ks[|ks| - 1];
    WithKeyAppend(xs, x, key, k);
    assert ks == p + [k];
    if k == key(x) {
      SumSizesUnchanged(p, xs, x, key);
    } else {
      SumSizesBump(p, xs, x, key);
    }
  }

  /** Grouping by a key loses and duplicates nothing: the group sizes over all
      distinct keys add up to the number of elements. */
  lemma {:induction false} PartitionCount<T>(xs: seq<T>, key: T -> string)
    ensures SumSizes(KeysInOrder(xs, key), xs, key) == |xs|
  {
    if xs != [] {
      var p := xs[..|xs| - 1];
      var x := xs[|xs| - 1];
      assert xs == p + [x];
      PartitionCount(p, key);
      KeysInOrderFacts(p, key);
      var ks := KeysInOrder(p, key);
      KeysInOrderAppend(p, x, key);
      if key(x) in ks {
        SumSizesBump(ks, p, x, key);
      } else {
        SumSizesUnchanged(ks, p, x, key);
        WithKeyAppend(p, x, key, key(x));
        assert (ks + [key(x)])[..|ks|] == ks;
      }
    }
  }

  /** Sum of `f` over the elements of `xs`. */
  function SumOf<T>(xs: seq<T>, f: T -> int): int {
    if xs == [] then 0 else SumOf(xs[..|xs| - 1], f) + f(xs[|xs| - 1])
  }

  lemma {:induction false} SumOfConcat<T>(a: seq<T>, b: seq<T>, f: T -> int)
    ensures SumOf(a + b, f) == SumOf(a, f) + SumOf(b, f)
  {
    if b != [] {
      assert (a + b)[..|a + b| - 1] == a + b[..|b| - 1];
      SumOfConcat(a, b[..|b| - 1], f);
    } else {
      assert a + b == a;
    }
  }

  /** Reordering does not change a sum. */
  lemma {:induction false} SumOfPermutation<T>(a: seq<T>, b: seq<T>, f: T -> int)
    requires multiset(a) == multiset(b)
    ensures SumOf(a, f) == SumOf(b, f)
    decreases |a|
  {
    if a == [] {
      assert |b| == |multiset(b)| == 0;
    } else {
      var x := a[|a| - 1];
      var a' := a[..|a| - 1];
      assert a == a' + [x];
      assert x in multiset(b);
      var j :| 0 <= j < |b| && b[j] == x;
      var b' := b[..j] + b[j + 1..];
      assert b == b[..j] + [x] + b[j + 1..];
      assert multiset(b') == multiset(b) - multiset{x};
      SumOfPermutation(a', b', f);
      SumOfConcat(b[..j], [x], f);
      SumOfConcat(b[..j] + [x], b[j + 1..], f);
      SumOfConcat(b[..j], b[j + 1..], f);
      assert SumOf([x], f) == f(x) by {
        assert [x][..0] == [];
      }
    }
  }

  /** Filtering a concatenation filters each part. */
  lemma {:induction false} FilterConcat<T>(a: seq<T>, b: seq<T>, keep: T -> bool)
    ensures Filter(a + b, keep) == Filter(a, keep) + Filter(b, keep)
  {
    if b == [] {
      assert a + b == a;
    } else {
      assert (a + b)[..|a + b| - 1] == a + b[..|b| - 1];
      FilterConcat(a, b[..|b| - 1], keep);
    }
  }

  /** Filtering inputs that are permutations of each other gives outputs that
      are permutations of each other. */
  lemma {:induction false} FilterPermutation<T>(a: seq<T>, b: seq<T>, keep: T -> bool)
    requires multiset(a) == multiset(b)
    ensures multiset(Filter(a, keep)) == multiset(Filter(b, keep))
    decreases |a|
  {
    if a == [] {
      assert |b| == |multiset(b)| == 0;
    } else {
      var x := a[|a| - 1];
      var a' := a[..|a| - 1];
      assert a == a' + [x];
      assert x in multiset(b);
      var j :| 0 <= j < |b| && b[j] == x;
      var b' := b[..j] + b[j + 1..];
      assert b == b[..j] + [x] + b[j + 1..];
      assert multiset(b') == multiset(b) - multiset{x};
      FilterPermutation(a', b', keep);
      FilterConcat(a', [x], keep);
      FilterRemoveAt(b, j, keep);
    }
  }

  /** Filtering with one element taken out loses at most that element. */
  lemma {:induction false} FilterRemoveAt<T>(b: seq<T>, j: nat, keep: T -> bool)
    requires j < |b|
    ensures multiset(Filter(b, keep))
      == multiset(Filter(b[..j] + b[j + 1..], keep)) + multiset(Filter([b[j]], keep))
  {
    var p, x, q := b[..j], b[j], b[j + 1..];
    assert p + [x] + q == b;
    FilterAround(p, x, q, keep);
  }

  lemma {:induction false} FilterAround<T>(p: seq<T>, x: T, q: seq<T>, keep: T -> bool)
    ensures multiset(Filter(p + [x] + q, keep))
      == multiset(Filter(p + q, keep)) + multiset(Filter([x], keep))
  {
    FilterConcat(p + [x], q, keep);
    FilterConcat(p, [x], keep);
    FilterConcat(p, q, keep);
    var fp, fx, fq := Filter(p, keep), Filter([x], keep), Filter(q, keep);
    assert multiset(fp + fx + fq) == multiset(fp + fq) + multiset(fx);
  }

  /** `xs.flatMap(f)`: the pieces of all elements, element by element. */
  function FlatMap<T, U>(xs: seq<T>, f: T -> seq<U>): seq<U> {
    if xs == [] then [] else FlatMap(xs[..|xs| - 1], f) + f(xs[|xs| - 1])
  }

  lemma {:induction false} FlatMapConcat<T, U>(a: seq<T>, b: seq<T>, f: T -> seq<U>)
    ensures FlatMap(a + b, f) == FlatMap(a, f) + FlatMap(b, f)
  {
    if b == [] {
      assert a + b == a;
    } else {
      assert (a + b)[..|a + b| - 1] == a + b[..|b| - 1];
      FlatMapConcat(a, b[..|b| - 1], f);
    }
  }

  /** Reordering the elements reorders the flattened pieces and nothing more. */
  lemma {:induction false} FlatMapPermutation<T, U>(a: seq<T>, b: seq<T>, f: T -> seq<U>)
    requires multiset(a) == multiset(b)
    ensures multiset(FlatMap(a, f)) == multiset(FlatMap(b, f))
    decreases |a|
  {
    if a == [] {
      assert |b| == |multiset(b)| == 0;
    } else {
      var x := a[|a| - 1];
      var a' := a[..|a| - 1];
      assert a == a' + [x];
      assert x in multiset(b);
      var j :| 0 <= j < |b| && b[j] == x;
      var b' := b[..j] + b[j + 1..];
      assert b == b[..j] + [x] + b[j + 1..];
      assert multiset(b') == multiset(b) - multiset{x};
      FlatMapPermutation(a', b', f);
      FlatMapConcat(b[..j], [x], f);
      FlatMapConcat(b[..j] + [x], b[j + 1..], f);
      FlatMapConcat(b[..j], b[j + 1..], f);
      assert FlatMap([x], f) == f(x) by {
        assert [x][..0] == [];
      }
    }
  }

  /** `xs` with `f` applied to each element, in order. */
  function MapSeq<T, U>(xs: seq<T>, f: T -> U): (r: seq<U>)
    ensures |r| == |xs| && forall i :: 0 <= i < |xs| ==> r[i] == f(xs[i])
  {
    seq(|xs|, i requires 0 <= i < |xs| => f(xs[i]))
  }

  lemma MapSeqAppend<T, U>(a: seq<T>, b: seq<T>, f: T -> U)
    ensures MapSeq(a + b, f) == MapSeq(a, f) + MapSeq(b, f)
  {
    assert forall i :: 0 <= i < |a + b| ==> MapSeq(a + b, f)[i] == (MapSeq(a, f) + MapSeq(b, f))[i];
  }
}
