/** String-keyed maps that remember insertion order (Java's `LinkedHashMap`),
    and grouping a sequence by a key into such a map. The iteration order of
    Java's `Collectors.groupingBy` (a `HashMap`) is modelled by the same
    first-occurrence order. */
module LinkedMaps {
  import opened Seqs

  /** The keys in insertion order, and the key-to-value mapping. */
  datatype LinkedMap<V> = LinkedMap(keys: seq<string>, values: map<string, V>) {
    /** Keys are listed once each, and exactly the mapped keys are listed. */
    ghost predicate Valid() {
      NoDup(keys) && forall k :: k in values <==> k in keys
    }

    /** `getOrDefault`. */
    function GetOr(k: string, default: V): V {
      if k in values then values[k] else default
    }

    /** `put`: a new key is appended to the order, a present key keeps its place. */
    function Put(k: string, v: V): LinkedMap<V> {
      LinkedMap(if k in keys then keys else keys + [k], values[k := v])
    }
  }

  function Empty<V>(): LinkedMap<V> {
    LinkedMap([], map[])
  }

  /** `put` keeps the map well formed, stores the value under its key, leaves
      every other key's value alone, and never reorders existing keys. */
  lemma PutFacts<V>(m: LinkedMap<V>, k: string, v: V)
    requires m.Valid()
    ensures m.Put(k, v).Valid()
    ensures m.Put(k, v).GetOr(k, v) == v && k in m.Put(k, v).values
    ensures forall k', d :: k' != k ==> m.Put(k, v).GetOr(k', d) == m.GetOr(k', d)
    ensures m.keys <= m.Put(k, v).keys
    ensures |m.Put(k, v).keys| == if k in m.values then |m.keys| else |m.keys| + 1
  {
  }

  /** Groups `xs` by `key` and summarizes every group, keys in order of first
      occurrence; each group keeps the input order. */
  function GroupBy<T, V>(xs: seq<T>, key: T -> string, summarize: seq<T> -> V): LinkedMap<V> {
    var ks := KeysInOrder(xs, key);
    LinkedMap(ks, map k | k in ks :: summarize(WithKey(xs, key, k)))
  }

  /** The groups themselves, as `Collectors.groupingBy` returns them. */
  function AsList<T>(group: seq<T>): seq<T> {
    group
  }

  /** A grouping is a well-formed map; its keys are exactly the keys that occur,
      and looking up any key (with the summary of no elements as default)
      gives the summary of that key's group. */
  lemma GroupByFacts<T, V>(xs: seq<T>, key: T -> string, summarize: seq<T> -> V)
    ensures GroupBy(xs, key, summarize).Valid()
    ensures forall k :: k in GroupBy(xs, key, summarize).values <==> exists x :: x in xs && key(x) == k
    ensures forall k :: GroupBy(xs, key, summarize).GetOr(k, summarize([])) == summarize(WithKey(xs, key, k))
  {
    KeysInOrderFacts(xs, key);
  }

  /** Adding one element to the input is one `put` on the grouping: the
      element's group grows by that element, at the end. */
  lemma GroupByAppend<T, V>(xs: seq<T>, x: T, key: T -> string, summarize: seq<T> -> V)
    ensures GroupBy(xs + [x], key, summarize)
         == GroupBy(xs, key, summarize).Put(key(x), summarize(WithKey(xs, key, key(x)) + [x]))
  {
    var g := GroupBy(xs, key, summarize);
    var h := GroupBy(xs + [x], key, summarize);
    var p := g.Put(key(x), summarize(WithKey(xs, key, key(x)) + [x]));
    KeysInOrderAppend(xs, x, key);
    assert h.keys == p.keys;
    forall k | k in h.keys
      ensures h.values[k] == p.values[k]
    {
      WithKeyAppend(xs, x, key, k);
      if k != key(x) {
        assert WithKey(xs, key, k) + [] == WithKey(xs, key, k);
        assert WithKey(xs + [x], key, k) == WithKey(xs, key, k);
        assert k in g.keys;
      }
    }
    assert h.values == p.values;
  }
}
