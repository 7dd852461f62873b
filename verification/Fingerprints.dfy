/** Fingerprints of sets of entries: what a commutative monoid makes of their singletons. */
module Fingerprints {
  import opened Entries
  import opened Queries

  datatype Monoid<!F> = Monoid(neutral: F, combine: (F, F) -> F, singleton: LengthyEntry -> F)

  ghost predicate Lawful<F(!new)>(o: Monoid<F>) {
    && (forall a :: o.combine(o.neutral, a) == a && o.combine(a, o.neutral) == a)
    && (forall a, b :: o.combine(a, b) == o.combine(b, a))
    && (forall a, b, c :: o.combine(o.combine(a, b), c) == o.combine(a, o.combine(b, c)))
  }

  /** Combining one after the other. */
  function FoldItems<F>(o: Monoid<F>, items: seq<LengthyEntry>): F {
    if items == [] then o.neutral
    else o.combine(FoldItems(o, items[..|items| - 1]), o.singleton(items[|items| - 1]))
  }

  /** The fingerprint of some records, in an order that does not matter. */
  ghost function Fold<F>(o: Monoid<F>, ns: NamespaceId, m: Store, ks: set<Key>): F
    requires ks <= m.Keys
  {
    if ks == {} then o.neutral
    else
      var k :| k in ks;
      o.combine(Fold(o, ns, m, ks - {k}), o.singleton(LengthyOf(ns, m, k)))
  }

  lemma {:induction false} FoldAny<F(!new)>(o: Monoid<F>, ns: NamespaceId, m: Store, ks: set<Key>, k: Key)
    requires Lawful(o) && ks <= m.Keys && k in ks
    ensures Fold(o, ns, m, ks) == o.combine(Fold(o, ns, m, ks - {k}), o.singleton(LengthyOf(ns, m, k)))
    decreases ks
  {
    var j :| j in ks && Fold(o, ns, m, ks) == o.combine(Fold(o, ns, m, ks - {j}), o.singleton(LengthyOf(ns, m, j)));
    if j != k {
      var rest := Fold(o, ns, m, ks - {j} - {k});
      FoldAny(o, ns, m, ks - {j}, k);
      FoldAny(o, ns, m, ks - {k}, j);
      assert ks - {j} - {k} == ks - {k} - {j};
      Swap(o, rest, o.singleton(LengthyOf(ns, m, k)), o.singleton(LengthyOf(ns, m, j)));
    }
  }

  /** One record makes its singleton, and none the neutral fingerprint. */
  lemma FoldFew<F(!new)>(o: Monoid<F>, ns: NamespaceId, m: Store, k: Key)
    requires Lawful(o) && k in m
    ensures Fold(o, ns, m, {}) == o.neutral && Fold(o, ns, m, {k}) == o.singleton((Restore(ns, k, m[k]), m[k].available))
  {
    assert {k} - {k} == {};
  }

  lemma Swap<F(!new)>(o: Monoid<F>, a: F, b: F, c: F)
    requires Lawful(o)
    ensures o.combine(o.combine(a, b), c) == o.combine(o.combine(a, c), b)
  {
    assert o.combine(o.combine(a, b), c) == o.combine(a, o.combine(b, c));
    assert o.combine(o.combine(a, c), b) == o.combine(a, o.combine(c, b));
  }

  /** Disjoint sets of records combine. */
  lemma {:induction false} FoldUnion<F(!new)>(o: Monoid<F>, ns: NamespaceId, m: Store, a: set<Key>, b: set<Key>)
    requires Lawful(o) && a <= m.Keys && b <= m.Keys && a !! b
    ensures Fold(o, ns, m, a + b) == o.combine(Fold(o, ns, m, a), Fold(o, ns, m, b))
    decreases b
  {
    if b == {} {
      assert a + b == a;
    } else {
      var k :| k in b;
      FoldUnion(o, ns, m, a, b - {k});
      FoldAny(o, ns, m, b, k);
      FoldAny(o, ns, m, a + b, k);
      assert a + b - {k} == a + (b - {k});
    }
  }

  /** Whatever the order of an answer, combining its items gives the fingerprint of its records. */
  lemma {:induction false} FoldAnswer<F(!new)>(o: Monoid<F>, ns: NamespaceId, m: Store, ks: set<Key>, order: seq<Key>, items: seq<LengthyEntry>)
    requires Lawful(o) && Answers(ns, m, ks, order, items)
    ensures ks <= m.Keys && FoldItems(o, items) == Fold(o, ns, m, ks)
    decreases |order|
  {
    AnswersExpand(ns, m, ks, order, items);
    if order != [] {
      var n, k := |order| - 1, order[|order| - 1];
      FoldAnswer(o, ns, m, ks - {k}, order[..n], items[..n]);
      FoldAny(o, ns, m, ks, k);
    }
  }
}
