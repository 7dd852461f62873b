/** A tree over byte strings that holds a finite map, each element under a key of its own. */
module TreeIndex {
  import opened ByteStrings

  /** `at` gives every element of `vals` its own key, `of` reads keys back, and `tree` holds nothing else. */
  ghost predicate Indexes<K(!new), V>(tree: map<seq<byte>, V>, of: map<seq<byte>, K>,
                                      at: map<K, seq<byte>>, vals: map<K, V>) {
    && at.Keys == vals.Keys
    && of.Keys == tree.Keys
    && (forall k | k in at :: at[k] in of && of[at[k]] == k)
    && (forall b | b in of :: of[b] in at && at[of[b]] == b && tree[b] == vals[of[b]])
  }

  function KeysOf<K>(of: map<seq<byte>, K>, ks: set<K>): set<seq<byte>> {
    set b | b in of && of[b] in ks
  }

  lemma Remove<K(!new), V>(tree: map<seq<byte>, V>, of: map<seq<byte>, K>, at: map<K, seq<byte>>, vals: map<K, V>,
                           gone: set<K>)
    requires Indexes(tree, of, at, vals)
    ensures Indexes(tree - KeysOf(of, gone), of - KeysOf(of, gone), at - gone, vals - gone)
  {}

  lemma Insert<K(!new), V>(tree: map<seq<byte>, V>, of: map<seq<byte>, K>, at: map<K, seq<byte>>, vals: map<K, V>,
                           k: K, b: seq<byte>, v: V)
    requires Indexes(tree, of, at, vals) && k !in at && b !in of
    ensures Indexes(tree[b := v], of[b := k], at[k := b], vals[k := v])
  {}

  lemma Rewrite<K(!new), V>(tree: map<seq<byte>, V>, of: map<seq<byte>, K>, at: map<K, seq<byte>>, vals: map<K, V>,
                            k: K, b: seq<byte>, v: V)
    requires Indexes(tree, of, at, vals) && k in at && at[k] == b
    ensures Indexes(tree[b := v], of[b := k], at[k := b], vals[k := v])
  {}

  lemma NoKeys<K(!new), V>(tree: map<seq<byte>, V>, of: map<seq<byte>, K>, at: map<K, seq<byte>>, vals: map<K, V>,
                           ks: set<K>)
    requires Indexes(tree, of, at, vals) && ks <= at.Keys && KeysOf(of, ks) == {}
    ensures ks == {}
  {
    forall k | k in ks ensures at[k] in KeysOf(of, ks) {}
  }

  lemma KeysPlusOne<K(!new), V>(tree: map<seq<byte>, V>, of: map<seq<byte>, K>, at: map<K, seq<byte>>, vals: map<K, V>,
                                ks: set<K>, k: K)
    requires Indexes(tree, of, at, vals) && k in at
    ensures KeysOf(of, ks + {k}) == KeysOf(of, ks) + {at[k]}
  {}

  lemma KeysMinusOne<K(!new), V>(tree: map<seq<byte>, V>, of: map<seq<byte>, K>, at: map<K, seq<byte>>, vals: map<K, V>,
                                 ks: set<K>, k: K)
    requires Indexes(tree, of, at, vals) && k in at
    ensures KeysOf(of, ks - {k}) == KeysOf(of, ks) - {at[k]}
  {}

  lemma {:induction false} KeysCount<K(!new), V>(tree: map<seq<byte>, V>, of: map<seq<byte>, K>,
                                                 at: map<K, seq<byte>>, vals: map<K, V>, ks: set<K>)
    requires Indexes(tree, of, at, vals) && ks <= at.Keys
    ensures |KeysOf(of, ks)| == |ks|
  {
    if ks == {} {
      assert KeysOf(of, ks) == {};
    } else {
      var k :| k in ks;
      KeysCount(tree, of, at, vals, ks - {k});
      KeysMinusOne(tree, of, at, vals, ks, k);
    }
  }
}
