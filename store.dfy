/**
 * A Python dictionary keyed by message sequence: its entries and the order in
 * which its keys were first inserted. Assigning to a present key keeps the
 * key's place; `del` takes the key out of the order; iterating over
 * `list(d.keys())` visits the keys in that order.
 */
module Store {
  import opened Wire

  /** How many times `x` occurs in `s`. */
  function Occurrences<T(==)>(s: seq<T>, x: T): nat {
    if s == [] then 0 else Occurrences(s[..|s| - 1], x) + if s[|s| - 1] == x then 1 else 0
  }

  /** `x` occurs in `s` exactly when it is an element of `s`. */
  lemma {:induction false} OccurrencesZero<T>(s: seq<T>, x: T)
    ensures Occurrences(s, x) == 0 <==> x !in s
  {
    if s != [] {
      var prefix := s[..|s| - 1];
      OccurrencesZero(prefix, x);
      assert s == prefix + [s[|s| - 1]];
    }
  }

  /** No element occurs twice: the last one does not occur among the others, and so on down. */
  predicate Distinct<T(==)>(s: seq<T>) {
    s == [] || (Occurrences(s[..|s| - 1], s[|s| - 1]) == 0 && Distinct(s[..|s| - 1]))
  }

  /** `Distinct` says that different positions hold different elements. */
  lemma {:induction false} DistinctIndices<T>(s: seq<T>)
    ensures Distinct(s) <==> forall i, j :: 0 <= i < j < |s| ==> s[i] != s[j]
  {
    if s != [] {
      var prefix, last := s[..|s| - 1], s[|s| - 1];
      DistinctIndices(prefix);
      OccurrencesZero(prefix, last);
      if forall i, j :: 0 <= i < j < |s| ==> s[i] != s[j] {
        assert forall i, j :: 0 <= i < j < |prefix| ==> prefix[i] != prefix[j] by {
          forall i, j | 0 <= i < j < |prefix| ensures prefix[i] != prefix[j] { assert s[i] == prefix[i] && s[j] == prefix[j]; }
        }
        forall i | 0 <= i < |prefix| ensures prefix[i] != last { assert s[i] == prefix[i]; }
      }
      if Distinct(s) {
        forall i, j | 0 <= i < j < |s| ensures s[i] != s[j] {
          if j == |s| - 1 {
            assert s[i] == prefix[i];
          } else {
            assert s[i] == prefix[i] && s[j] == prefix[j];
          }
        }
      }
    }
  }

  /** Every prefix of a duplicate-free sequence is duplicate-free. */
  lemma {:induction false} DistinctPrefix<T>(s: seq<T>, n: nat)
    requires Distinct(s) && n <= |s|
    ensures Distinct(s[..n])
    decreases |s| - n
  {
    if n < |s| {
      var prefix := s[..|s| - 1];
      DistinctPrefix(prefix, n);
      assert prefix[..n] == s[..n];
    } else {
      assert s[..n] == s;
    }
  }

  datatype Dict<V> = Dict(entries: map<U64, V>, order: seq<U64>)

  /** `order` lists the keys `keys`, each once: its last key is one of them, and the rest list the others. */
  ghost predicate Lists(order: seq<U64>, keys: set<U64>) {
    if order == [] then keys == {}
    else order[|order| - 1] in keys && Lists(order[..|order| - 1], keys - {order[|order| - 1]})
  }

  /** `Lists` says that the order holds no key twice, and holds exactly the keys. */
  lemma {:induction false} ListsMeans(order: seq<U64>, keys: set<U64>)
    ensures Lists(order, keys) <==> Distinct(order) && forall k :: k in order <==> k in keys
  {
    if order != [] {
      var prefix, last := order[..|order| - 1], order[|order| - 1];
      ListsMeans(prefix, keys - {last});
      OccurrencesZero(prefix, last);
      assert forall k :: k in order <==> k in prefix || k == last by {
        assert order == prefix + [last];
      }
      if Distinct(order) && forall k :: k in order <==> k in keys {
        assert forall k :: k in prefix <==> k in keys - {last};
      }
    }
  }

  /** Every key is in the order once, and the order holds nothing else. */
  ghost predicate Valid<V>(d: Dict<V>) {
    Lists(d.order, d.entries.Keys)
  }

  /** The facts `Valid` packs: no key twice in the order, and the order's keys are the entries' keys. */
  lemma ValidMeans<V>(d: Dict<V>)
    requires Valid(d)
    ensures Distinct(d.order) && forall k :: k in d.order <==> k in d.entries
  {
    ListsMeans(d.order, d.entries.Keys);
  }

  function Empty<V>(): (d: Dict<V>)
    ensures Valid(d) && d.entries == map[] && d.order == []
  {
    Dict(map[], [])
  }

  /** `d[k] = v`: the value under `k` is now `v`; a new key goes to the end of the order. */
  function Put<V>(d: Dict<V>, k: U64, v: V): (r: Dict<V>)
    requires Valid(d)
    ensures Valid(r) && r.entries == d.entries[k := v]
    ensures k in d.entries ==> r.order == d.order
    ensures k !in d.entries ==> r.order == d.order + [k]
  {
    if k in d.entries then
      assert d.entries[k := v].Keys == d.entries.Keys;
      Dict(d.entries[k := v], d.order)
    else
      assert (d.order + [k])[..|d.order|] == d.order;
      assert d.entries[k := v].Keys - {k} == d.entries.Keys;
      Dict(d.entries[k := v], d.order + [k])
  }

  /** `del d[k]`: the key is present (Python raises KeyError otherwise); it leaves the entries and the order. */
  function Delete<V>(d: Dict<V>, k: U64): (r: Dict<V>)
    requires Valid(d) && k in d.entries
    ensures Valid(r) && r.entries == d.entries - {k}
    ensures r.order == Without(d.order, k)
  {
    WithoutLists(d.order, d.entries.Keys, k);
    assert (d.entries - {k}).Keys == d.entries.Keys - {k};
    Dict(d.entries - {k}, Without(d.order, k))
  }

  /** `s` with every occurrence of `k` taken out, the rest in order. */
  function Without(s: seq<U64>, k: U64): (r: seq<U64>)
    ensures forall x :: x in r <==> x in s && x != k
    ensures |r| <= |s|
  {
    if s == [] then []
    else
      var prefix, last := s[..|s| - 1], s[|s| - 1];
      var rest := Without(prefix, k);
      assert forall x :: x in s <==> x in prefix || x == last by {
        assert s == prefix + [last];
      }
      if last == k then rest else rest + [last]
  }

  /** Taking a key out of a listing lists the remaining keys. */
  lemma {:induction false} WithoutLists(order: seq<U64>, keys: set<U64>, k: U64)
    requires Lists(order, keys)
    ensures Lists(Without(order, k), keys - {k})
  {
    if order != [] {
      var prefix, last := order[..|order| - 1], order[|order| - 1];
      var rest := Without(prefix, k);
      WithoutLists(prefix, keys - {last}, k);
      if last == k {
        assert keys - {last} - {k} == keys - {k};
      } else {
        assert (rest + [last])[..|rest|] == rest;
        assert keys - {k} - {last} == keys - {last} - {k};
      }
    }
  }

  /** Writing a key twice with the same value is writing it once. */
  lemma PutTwice<V>(d: Dict<V>, k: U64, v: V)
    requires Valid(d)
    ensures Put(Put(d, k, v), k, v) == Put(d, k, v)
  {
  }
}
