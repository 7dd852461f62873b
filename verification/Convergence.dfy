/** Ingestion as a join: when the order and multiplicity of ingested entries does not matter. */
module Convergence {
  import opened Paths
  import opened Entries

  /** Ingest a sequence of entries, without preventing pruning, into an empty store. */
  ghost function IngestAll(ns: NamespaceId, es: seq<AuthorisedEntry>): Store {
    if es == [] then map[]
    else Ingest(ns, IngestAll(ns, es[..|es| - 1]), es[|es| - 1], false).0
  }

  /** A finite collection, all of one namespace. */
  predicate OneNamespace(ns: NamespaceId, es: set<AuthorisedEntry>) {
    forall a | a in es :: a.entry.namespaceId == ns
  }

  function Elements(es: seq<AuthorisedEntry>): set<AuthorisedEntry> {
    set a | a in es
  }

  /** Some entry of the collection prunes this one. */
  predicate Blocked(c: set<AuthorisedEntry>, a: AuthorisedEntry) {
    exists b :: b in c && IsPrunedBy(a.entry, b.entry)
  }

  /** The entries of a collection that none of the others prunes. */
  function Unpruned(es: set<AuthorisedEntry>): set<AuthorisedEntry> {
    set a | a in es && !Blocked(es, a)
  }

  predicate SameRank(a: Entry, b: Entry) {
    !IsNewerThan(a, b) && !IsNewerThan(b, a)
  }

  /** Two distinct entries of which neither is newer, where one could prune the other. */
  predicate Tie(a: AuthorisedEntry, b: AuthorisedEntry) {
    && a != b
    && a.entry.subspace == b.entry.subspace
    && a.entry.path <= b.entry.path
    && SameRank(a.entry, b.entry)
  }

  predicate NoUnprunedTies(es: set<AuthorisedEntry>) {
    forall a, b | a in Unpruned(es) && b in Unpruned(es) :: !Tie(a, b)
  }

  // ---------------------------------------------------------------- dominance

  /** Prefixed by, and not newer than. */
  predicate DominatedBy(e: Entry, other: Entry) {
    e.subspace == other.subspace && other.path <= e.path && !IsNewerThan(e, other)
  }

  lemma PrefixTransitive(p: Path, q: Path, r: Path)
    requires p <= q && q <= r
    ensures p <= r
  {}

  lemma DominatedTransitive(a: Entry, b: Entry, c: Entry)
    requires DominatedBy(a, b) && DominatedBy(b, c)
    ensures DominatedBy(a, c)
  {
    PrefixTransitive(c.path, b.path, a.path);
  }

  /** Pruning passes through entries that are themselves only dominated. */
  lemma PruneTransitive(a: Entry, b: Entry, c: Entry)
    requires a.namespaceId == b.namespaceId == c.namespaceId
    requires (IsPrunedBy(a, b) && DominatedBy(b, c)) || (DominatedBy(a, b) && IsPrunedBy(b, c))
    ensures IsPrunedBy(a, c)
  {
    PrefixTransitive(c.path, b.path, a.path);
  }

  // ---------------------------------------------------------------- contents

  predicate Fresh(m: Store) {
    forall k | k in m :: m[k].available == 0
  }

  lemma ContentsKey(ns: NamespaceId, m: Store, a: AuthorisedEntry)
    requires Fresh(m) && a.entry.namespaceId == ns
    ensures a in Contents(ns, m) <==> KeyOf(a.entry) in m && m[KeyOf(a.entry)] == FreshRecord(a)
  {
    if KeyOf(a.entry) in m && m[KeyOf(a.entry)] == FreshRecord(a) {
      assert Restore(ns, KeyOf(a.entry), m[KeyOf(a.entry)]) == a;
    }
  }

  /** What one ingestion does to a set of entries: nothing if some held entry prunes the new one,
      otherwise everything the new one dominates goes and the new one comes. */
  function Join(c: set<AuthorisedEntry>, a: AuthorisedEntry): set<AuthorisedEntry> {
    if Blocked(c, a) then c else (set b | b in c && !DominatedBy(b.entry, a.entry)) + {a}
  }

  /** What an ingestion means for the held entries: it is obsolete if one of them prunes the new entry,
      prevented if that is asked for and one of them would have to go, and otherwise the new entry takes
      the place of all that it dominates. All other records stay as they are. */
  ghost predicate IngestMeaning(ns: NamespaceId, m: Store, a: AuthorisedEntry, preventPruning: bool, m': Store, r: IngestResult) {
    var c := Contents(ns, m);
    && (r.Obsolete? <==> Blocked(c, a))
    && (r.Obsolete? ==> r.obsolete == a && r.newer in c && IsPrunedBy(a.entry, r.newer.entry))
    && (r.PruningPrevented? <==> !Blocked(c, a) && preventPruning && exists b :: b in c && DominatedBy(b.entry, a.entry))
    && (!r.Success? ==> m' == m)
    && (r.Success? ==> Contents(ns, m') == (set b | b in c && !DominatedBy(b.entry, a.entry)) + {a})
    && (r.Success? ==> forall k | k in m' :: if k == KeyOf(a.entry) then m'[k].available == 0 else k in m && m'[k] == m[k])
  }

  lemma IngestContents(ns: NamespaceId, m: Store, a: AuthorisedEntry, preventPruning: bool)
    requires a.entry.namespaceId == ns
    ensures var (m', r) := Ingest(ns, m, a, preventPruning);
      IngestMeaning(ns, m, a, preventPruning, m', r) && (Fresh(m) ==> Fresh(m'))
    ensures !preventPruning ==> Contents(ns, Ingest(ns, m, a, false).0) == Join(Contents(ns, m), a)
  {
    var c := Contents(ns, m);
    BlockedIff(ns, m, a);
    PrunableIff(ns, m, a);
    if Blockers(m, a.entry) != {} {
      FirstExists(Blockers(m, a.entry));
      var k :| IsFirst(Blockers(m, a.entry), k);
      IngestBlocked(ns, m, a, preventPruning, k);
      assert Restore(ns, k, m[k]) in c;
    } else {
      InsertContents(ns, m, a);
    }
  }

  lemma IngestJoins(ns: NamespaceId, m: Store, a: AuthorisedEntry)
    requires a.entry.namespaceId == ns && Fresh(m)
    ensures Fresh(Ingest(ns, m, a, false).0)
    ensures Contents(ns, Ingest(ns, m, a, false).0) == Join(Contents(ns, m), a)
  {
    IngestContents(ns, m, a, false);
  }

  lemma BlockedIff(ns: NamespaceId, m: Store, a: AuthorisedEntry)
    requires a.entry.namespaceId == ns
    ensures Blockers(m, a.entry) != {} <==> Blocked(Contents(ns, m), a)
  {
    var c := Contents(ns, m);
    if k :| k in Blockers(m, a.entry) {
      assert Restore(ns, k, m[k]) in c && IsPrunedBy(a.entry, Restore(ns, k, m[k]).entry);
    }
    if b :| b in c && IsPrunedBy(a.entry, b.entry) {
      var k :| k in m && b == Restore(ns, k, m[k]);
      assert k in Blockers(m, a.entry);
    }
  }

  lemma PrunableIff(ns: NamespaceId, m: Store, a: AuthorisedEntry)
    ensures Prunable(m, a.entry) != {} <==> exists b :: b in Contents(ns, m) && DominatedBy(b.entry, a.entry)
  {
    var c := Contents(ns, m);
    if k :| k in Prunable(m, a.entry) {
      assert Restore(ns, k, m[k]) in c && DominatedBy(Restore(ns, k, m[k]).entry, a.entry);
    }
    if b :| b in c && DominatedBy(b.entry, a.entry) {
      var k :| k in m && b == Restore(ns, k, m[k]);
      assert k in Prunable(m, a.entry);
    }
  }

  lemma InsertContents(ns: NamespaceId, m: Store, a: AuthorisedEntry)
    requires a.entry.namespaceId == ns && Blockers(m, a.entry) == {}
    ensures var m' := Prune(m, a.entry)[KeyOf(a.entry) := FreshRecord(a)];
      (Fresh(m) ==> Fresh(m')) &&
      Contents(ns, m') == (set b | b in Contents(ns, m) && !DominatedBy(b.entry, a.entry)) + {a}
  {
    var m' := Prune(m, a.entry)[KeyOf(a.entry) := FreshRecord(a)];
    var kept := set b | b in Contents(ns, m) && !DominatedBy(b.entry, a.entry);
    assert Restore(ns, KeyOf(a.entry), FreshRecord(a)) == a;
    forall b | b in Contents(ns, m') ensures b in kept + {a} {
      var k :| k in m' && b == Restore(ns, k, m'[k]);
      if k != KeyOf(a.entry) {
        assert k in m && k !in Prunable(m, a.entry);
        assert b in Contents(ns, m);
      }
    }
    forall b | b in kept + {a} ensures b in Contents(ns, m') {
      if b == a {
        assert KeyOf(a.entry) in m';
      } else {
        var k :| k in m && b == Restore(ns, k, m[k]);
        assert k !in Prunable(m, a.entry);
        assert k !in Blockers(m, a.entry);
        assert k in m' && m'[k] == m[k];
      }
    }
  }

  // ---------------------------------------------------------------- the invariant

  predicate Antichain(c: set<AuthorisedEntry>) {
    forall a | a in c :: !Blocked(c, a)
  }

  predicate Dominated(c: set<AuthorisedEntry>, a: AuthorisedEntry) {
    exists b :: b in c && DominatedBy(a.entry, b.entry)
  }

  /** What holds after ingesting `es`: nothing foreign is held, no held entry prunes another, and
      every ingested entry is dominated by a held one. */
  predicate Covers(c: set<AuthorisedEntry>, es: set<AuthorisedEntry>) {
    c <= es && Antichain(c) && forall a | a in es :: Dominated(c, a)
  }

  lemma JoinAntichain(c: set<AuthorisedEntry>, a: AuthorisedEntry)
    requires Antichain(c)
    ensures Antichain(Join(c, a))
  {
    if !Blocked(c, a) {
      forall x | x in Join(c, a) ensures !Blocked(Join(c, a), x) {
        assert x != a ==> !Blocked(c, x);
      }
    }
  }

  lemma JoinDominates(c: set<AuthorisedEntry>, a: AuthorisedEntry, x: AuthorisedEntry)
    requires x == a || Dominated(c, x)
    ensures Dominated(Join(c, a), x)
  {
    var c' := Join(c, a);
    if Blocked(c, a) {
      var y :| y in c && IsPrunedBy(a.entry, y.entry);
      assert DominatedBy(a.entry, y.entry);
    } else if x == a {
      assert a in c' && DominatedBy(a.entry, a.entry);
    } else {
      var z :| z in c && DominatedBy(x.entry, z.entry);
      if DominatedBy(z.entry, a.entry) {
        DominatedTransitive(x.entry, z.entry, a.entry);
        assert a in c';
      } else {
        assert z in c';
      }
    }
  }

  lemma JoinCovers(c: set<AuthorisedEntry>, es: set<AuthorisedEntry>, a: AuthorisedEntry)
    requires Covers(c, es)
    ensures Covers(Join(c, a), es + {a})
  {
    JoinAntichain(c, a);
    forall x | x in es + {a} ensures Dominated(Join(c, a), x) { JoinDominates(c, a, x); }
  }

  lemma ElementsStep(es: seq<AuthorisedEntry>) returns (init: seq<AuthorisedEntry>, a: AuthorisedEntry)
    requires es != []
    ensures init == es[..|es| - 1] && a == es[|es| - 1] && es == init + [a]
    ensures Elements(es) == Elements(init) + {a}
  {
    init, a := es[..|es| - 1], es[|es| - 1];
    assert es == init + [a];
  }

  lemma {:induction false} CoversAll(ns: NamespaceId, es: seq<AuthorisedEntry>)
    requires OneNamespace(ns, Elements(es))
    ensures Fresh(IngestAll(ns, es)) && Covers(Contents(ns, IngestAll(ns, es)), Elements(es))
  {
    if es != [] {
      var init, a := ElementsStep(es);
      CoversAll(ns, init);
      JoinCovers(Contents(ns, IngestAll(ns, init)), Elements(init), a);
      IngestJoins(ns, IngestAll(ns, init), a);
    }
  }

  /** Whatever some ingested entry prunes, some held entry prunes. */
  lemma PrunersAreHeld(c: set<AuthorisedEntry>, es: set<AuthorisedEntry>, a: AuthorisedEntry, b: AuthorisedEntry)
    requires Covers(c, es) && b in es && IsPrunedBy(a.entry, b.entry)
    requires forall x | x in es :: x.entry.namespaceId == b.entry.namespaceId
    ensures Blocked(c, a)
  {
    assert Dominated(c, b);
    var z :| z in c && DominatedBy(b.entry, z.entry);
    assert z in es;
    PruneTransitive(a.entry, b.entry, z.entry);
  }

  /** A covering set without internal pruning holds unpruned entries only. */
  lemma CoveringIsUnpruned(ns: NamespaceId, c: set<AuthorisedEntry>, es: set<AuthorisedEntry>)
    requires OneNamespace(ns, es) && Covers(c, es)
    ensures c <= Unpruned(es)
  {
    forall a | a in c ensures !Blocked(es, a) { HeldIsUnblocked(ns, c, es, a); }
  }

  lemma HeldIsUnblocked(ns: NamespaceId, c: set<AuthorisedEntry>, es: set<AuthorisedEntry>, a: AuthorisedEntry)
    requires OneNamespace(ns, es) && Covers(c, es) && a in c
    ensures !Blocked(es, a)
  {
    if b :| b in es && IsPrunedBy(a.entry, b.entry) { PrunersAreHeld(c, es, a, b); }
  }

  // ---------------------------------------------------------------- convergence

  /** Without ties among the unpruned, the unpruned entries are never lost on the way. */
  lemma {:induction false} UnprunedAreKept(ns: NamespaceId, all: set<AuthorisedEntry>, es: seq<AuthorisedEntry>)
    requires OneNamespace(ns, all) && NoUnprunedTies(all) && Elements(es) <= all
    ensures Fresh(IngestAll(ns, es))
    ensures Elements(es) * Unpruned(all) <= Contents(ns, IngestAll(ns, es))
  {
    CoversAll(ns, es);
    if es != [] {
      var init, a := ElementsStep(es);
      UnprunedAreKept(ns, all, init);
      CoversAll(ns, init);
      var m := IngestAll(ns, init);
      IngestJoins(ns, m, a);
      KeptStep(all, Contents(ns, m), Elements(init), Elements(es), a);
    }
  }

  lemma KeptStep(all: set<AuthorisedEntry>, c: set<AuthorisedEntry>, before: set<AuthorisedEntry>,
                 after: set<AuthorisedEntry>, a: AuthorisedEntry)
    requires forall x, y | x in all && y in all :: x.entry.namespaceId == y.entry.namespaceId
    requires NoUnprunedTies(all) && c <= all && a in all && after == before + {a}
    requires before * Unpruned(all) <= c
    ensures after * Unpruned(all) <= Join(c, a)
  {
    forall b | b in after && b in Unpruned(all) ensures b in Join(c, a) { UnprunedStep(all, c, a, b); }
  }

  /** An unpruned entry is neither blocked nor dominated by another entry of a tie-free collection. */
  lemma UnprunedStep(all: set<AuthorisedEntry>, c: set<AuthorisedEntry>,
                     a: AuthorisedEntry, b: AuthorisedEntry)
    requires forall x, y | x in all && y in all :: x.entry.namespaceId == y.entry.namespaceId
    requires NoUnprunedTies(all) && c <= all && a in all && b in Unpruned(all)
    requires b == a || b in c
    ensures b in Join(c, a)
  {
    if b == a {
      assert !Blocked(c, a);
    } else if DominatedBy(b.entry, a.entry) {
      assert !IsPrunedBy(b.entry, a.entry);
      assert Tie(a, b);
      var x :| x in all && IsPrunedBy(a.entry, x.entry);
      PruneTransitive(b.entry, a.entry, x.entry);
    }
  }

  /** Convergence: any order, any repetition, same result, namely the entries nothing prunes. */
  lemma IngestionConverges(ns: NamespaceId, es: seq<AuthorisedEntry>)
    requires OneNamespace(ns, Elements(es)) && NoUnprunedTies(Elements(es))
    ensures Fresh(IngestAll(ns, es))
    ensures Contents(ns, IngestAll(ns, es)) == Unpruned(Elements(es))
  {
    CoversAll(ns, es);
    CoveringIsUnpruned(ns, Contents(ns, IngestAll(ns, es)), Elements(es));
    UnprunedAreKept(ns, Elements(es), es);
  }

  /** The same contents mean the same store. */
  lemma ContentsDetermine(ns: NamespaceId, m: Store, m': Store)
    requires Fresh(m) && Fresh(m') && Contents(ns, m) == Contents(ns, m')
    ensures m == m'
  {
    forall k | k in m ensures k in m' && m'[k] == m[k] {
      var a := Restore(ns, k, m[k]);
      assert a in Contents(ns, m);
      ContentsKey(ns, m', a);
    }
    forall k | k in m' ensures k in m {
      var a := Restore(ns, k, m'[k]);
      assert a in Contents(ns, m');
      ContentsKey(ns, m, a);
    }
  }

  // ---------------------------------------------------------------- and only then

  /** All sequences with these elements end in the same store. */
  ghost predicate OrderIrrelevant(ns: NamespaceId, all: set<AuthorisedEntry>) {
    forall es, fs | Elements(es) == all && Elements(fs) == all :: IngestAll(ns, es) == IngestAll(ns, fs)
  }

  lemma {:induction false} Enumerate(s: set<AuthorisedEntry>) returns (es: seq<AuthorisedEntry>)
    ensures Elements(es) == s
  {
    if s == {} {
      es := [];
    } else {
      var x :| x in s;
      var rest := Enumerate(s - {x});
      es := rest + [x];
      var init, a := ElementsStep(es);
      assert init == rest;
    }
  }

  /** Joining the upper of two tied entries removes the lower one; joining the lower one keeps it. */
  lemma TieJoin(all: set<AuthorisedEntry>, c: set<AuthorisedEntry>, a: AuthorisedEntry, b: AuthorisedEntry)
    requires c <= all && a in Unpruned(all) && b in Unpruned(all) && Tie(a, b)
    ensures b !in Join(c, a) && b in Join(c, b)
  {
    assert DominatedBy(b.entry, a.entry);
    assert Blocked(c, a) ==> Blocked(all, a);
    assert Blocked(c, b) ==> Blocked(all, b);
  }

  lemma TieMatters(ns: NamespaceId, all: set<AuthorisedEntry>, es: seq<AuthorisedEntry>,
                   a: AuthorisedEntry, b: AuthorisedEntry)
    requires OneNamespace(ns, all) && Elements(es) == all
    requires a in Unpruned(all) && b in Unpruned(all) && Tie(a, b)
    ensures IngestAll(ns, es + [a]) != IngestAll(ns, es + [b])
  {
    CoversAll(ns, es);
    var m := IngestAll(ns, es);
    assert (es + [a])[..|es|] == es && (es + [b])[..|es|] == es;
    IngestJoins(ns, m, a);
    IngestJoins(ns, m, b);
    TieJoin(all, Contents(ns, m), a, b);
  }

  /** Ingestion is order-independent exactly for the collections without ties among the unpruned. */
  lemma ConvergenceIff(ns: NamespaceId, all: set<AuthorisedEntry>)
    requires OneNamespace(ns, all)
    ensures OrderIrrelevant(ns, all) <==> NoUnprunedTies(all)
  {
    if NoUnprunedTies(all) {
      forall es, fs | Elements(es) == all && Elements(fs) == all ensures IngestAll(ns, es) == IngestAll(ns, fs) {
        IngestionConverges(ns, es);
        IngestionConverges(ns, fs);
        ContentsDetermine(ns, IngestAll(ns, es), IngestAll(ns, fs));
      }
    } else {
      var a, b :| a in Unpruned(all) && b in Unpruned(all) && Tie(a, b);
      var es := Enumerate(all);
      TieMatters(ns, all, es, a, b);
      assert Elements(es + [a]) == all && Elements(es + [b]) == all;
    }
  }
}
