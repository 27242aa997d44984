/**
 * Facts about finite sets and maps that the engine's proofs share: picking
 * an element, cardinality of subsets and of one-to-one images, and pairing two
 * equally large sets.
 */
module Sets {
  /** Takes some element of a non-empty set; the iteration order of a JavaScript Set is not modelled. */
  method Pick<T>(s: set<T>) returns (x: T)
    requires s != {}
    ensures x in s
  {
    x :| x in s;
  }

  /** The ghost counterpart of Pick, for proofs. */
  lemma Choose<T>(s: set<T>) returns (x: T)
    requires s != {}
    ensures x in s
  {
    x :| x in s;
  }

  /** A set of one element holds nothing else. */
  lemma SingletonUnique<T>(s: set<T>)
    requires |s| == 1
    ensures forall x, y :: x in s && y in s ==> x == y
  {
    var x := Choose(s);
    assert |s - {x}| == 0;
  }

  /** The element of a one-element set. */
  function Only<T>(s: set<T>): (x: T)
    requires |s| == 1
    ensures s == {x}
  {
    SingletonUnique(s);
    var x :| x in s;
    x
  }

  /** A subset is no larger than its superset. */
  lemma {:induction false} SubsetCard<T>(a: set<T>, b: set<T>)
    requires a <= b
    ensures |a| <= |b|
    decreases a
  {
    if a != {} {
      var x := Choose(a);
      SubsetCard(a - {x}, b - {x});
    }
  }

  /** Removing a subset leaves the difference of the sizes. */
  lemma DifferenceCard<T>(a: set<T>, b: set<T>)
    requires b <= a
    ensures |a - b| == |a| - |b|
  {
    assert a == (a - b) + b;
    assert (a - b) * b == {};
  }

  /** A sequence without repeats has as many elements as its length. */
  lemma {:induction false} DistinctCard<T>(s: seq<T>)
    requires forall i, j :: 0 <= i < j < |s| ==> s[i] != s[j]
    ensures |set x | x in s| == |s|
  {
    if s != [] {
      var t := s[..|s| - 1];
      assert forall i, j :: 0 <= i < j < |t| ==> t[i] != t[j] by {
        forall i, j | 0 <= i < j < |t|
          ensures t[i] != t[j]
        {
          assert t[i] == s[i] && t[j] == s[j];
        }
      }
      DistinctCard(t);
      var last := s[|s| - 1];
      assert (set x | x in s) == (set x | x in t) + {last} by {
        assert s == t + [last];
      }
      assert last !in (set x | x in t) by {
        forall i | 0 <= i < |t|
          ensures t[i] != last
        {
          assert t[i] == s[i];
        }
      }
    }
  }

  /** A sequence without repeats, drawn from `a` and as long as `a` is large, holds all of `a`. */
  lemma DistinctCovers<T>(s: seq<T>, a: set<T>)
    requires (forall i, j :: 0 <= i < j < |s| ==> s[i] != s[j]) && |s| == |a|
    requires forall i :: 0 <= i < |s| ==> s[i] in a
    ensures forall x :: x in a ==> x in s
  {
    DistinctCard(s);
    var e := set x | x in s;
    DifferenceCard(a, e);
    assert a - e == {};
  }

  /** No two keys share a value. */
  predicate Injective<K, V(==)>(g: map<K, V>) {
    forall k1, k2 :: k1 in g && k2 in g && g[k1] == g[k2] ==> k1 == k2
  }

  /** The values `g` gives the keys in `keys`. */
  function Image<K, V>(g: map<K, V>, keys: set<K>): set<V> {
    set k | k in keys && k in g :: g[k]
  }

  /** The keys `g` maps to `v`. */
  function Preimage<K, V(==)>(g: map<K, V>, v: V): set<K> {
    set k | k in g && g[k] == v
  }

  /** Under a one-to-one map, a value has exactly one key. */
  lemma PreimageSingleton<K, V>(g: map<K, V>, v: V)
    requires Injective(g) && v in g.Values
    ensures |Preimage(g, v)| == 1
  {
    var k :| k in g && g[k] == v;
    assert Preimage(g, v) == {k};
  }

  /** A one-to-one map has as many values on a set of keys as there are keys. */
  lemma {:induction false} ImageCard<K, V>(g: map<K, V>, keys: set<K>)
    requires keys <= g.Keys && Injective(g)
    ensures |Image(g, keys)| == |keys|
    decreases keys
  {
    if keys != {} {
      var k := Choose(keys);
      ImageCard(g, keys - {k});
      assert Image(g, keys) == Image(g, keys - {k}) + {g[k]};
    }
  }

  /** Two equally large finite sets can be paired one to one. */
  lemma {:induction false} Pairing<K, V>(from: set<K>, to: set<V>) returns (h: map<K, V>)
    requires |from| == |to|
    ensures h.Keys == from && Injective(h)
    ensures forall k :: k in h ==> h[k] in to
    decreases from
  {
    if from == {} {
      h := map[];
    } else {
      var k := Choose(from);
      var v := Choose(to);
      var rest := Pairing(from - {k}, to - {v});
      h := rest[k := v];
    }
  }
}
