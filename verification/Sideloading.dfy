/** From store to store: what is left of some areas of one store after another one ingested a drop of them. */
module Sideloading {
  import opened Wrappers
  import opened ByteStrings
  import opened Paths
  import opened Grouping
  import opened Entries
  import opened Queries
  import opened SledStores
  import opened ControlStores
  import opened Convergence
  import opened Drops
  import opened StoreDrops
  import opened DropIngestion

  /** The entries of a store that lie in one of some areas. */
  function InAreas(m: Store, areas: seq<Area>): set<Key> {
    set k | k in m && exists i :: 0 <= i < |areas| && AreaIncludes(areas[i], k.subspace, k.path, m[k].timestamp)
  }

  /** The entries that some areas list. */
  function ListedBy(f: Format, m: Store, areas: seq<Area>): set<Key>
    requires ValidAreas(f, areas)
  {
    if areas == [] then {} else ListedBy(f, m, areas[..|areas| - 1]) + ListedKeys(f, m, areas[|areas| - 1])
  }

  lemma {:induction false} ListedByAny(f: Format, m: Store, areas: seq<Area>, k: Key)
    requires ValidAreas(f, areas)
    ensures k in ListedBy(f, m, areas) <==> exists i :: 0 <= i < |areas| && k in ListedKeys(f, m, areas[i])
  {
    if areas != [] {
      var init := areas[..|areas| - 1];
      ListedByAny(f, m, init, k);
      assert forall i | 0 <= i < |init| :: init[i] == areas[i];
    }
  }

  function ItemAt(ns: NamespaceId, m: Store, payloadOf: PayloadSource, k: Key): Item
    requires k in m
  {
    ItemOf(payloadOf, LengthyOf(ns, m, k))
  }

  ghost predicate Stands(ns: NamespaceId, m: Store, payloadOf: PayloadSource, item: Item, ks: set<Key>) {
    var k := KeyOf(item.entry.entry);
    k in ks && k in m && item == ItemAt(ns, m, payloadOf, k)
  }

  /** Items that stand for precisely these records, perhaps with repetitions. */
  ghost predicate StandsFor(ns: NamespaceId, m: Store, payloadOf: PayloadSource, items: seq<Item>, ks: set<Key>) {
    && (forall i | 0 <= i < |items| :: Stands(ns, m, payloadOf, items[i], ks))
    && (forall k | k in ks :: exists i :: 0 <= i < |items| && KeyOf(items[i].entry.entry) == k)
  }

  lemma StandTogether(ns: NamespaceId, m: Store, payloadOf: PayloadSource, a: seq<Item>, b: seq<Item>, ks: set<Key>, js: set<Key>)
    requires StandsFor(ns, m, payloadOf, a, ks) && StandsFor(ns, m, payloadOf, b, js)
    ensures StandsFor(ns, m, payloadOf, a + b, ks + js)
  {
    var all := a + b;
    forall k | k in ks + js ensures exists i :: 0 <= i < |all| && KeyOf(all[i].entry.entry) == k {
      if k in ks {
        var i :| 0 <= i < |a| && KeyOf(a[i].entry.entry) == k;
        assert all[i] == a[i];
      } else {
        var i :| 0 <= i < |b| && KeyOf(b[i].entry.entry) == k;
        assert all[|a| + i] == b[i];
      }
    }
  }

  lemma AnswerStands(ns: NamespaceId, m: Store, payloadOf: PayloadSource, ks: set<Key>, order: seq<Key>, xs: seq<LengthyEntry>)
    requires Answers(ns, m, ks, order, xs)
    ensures StandsFor(ns, m, payloadOf, ItemsOf(payloadOf, xs), ks)
  {
    var items := ItemsOf(payloadOf, xs);
    AnswerMembers(ns, m, ks, order, xs);
    ItemsOfLength(payloadOf, xs);
    forall i | 0 <= i < |items| ensures Stands(ns, m, payloadOf, items[i], ks) {
      assert xs[i] in xs;
    }
    forall k | k in ks ensures exists i :: 0 <= i < |items| && KeyOf(items[i].entry.entry) == k {
      assert LengthyOf(ns, m, k) in xs;
      var i :| 0 <= i < |xs| && xs[i] == LengthyOf(ns, m, k);
      assert KeyOf(items[i].entry.entry) == k;
    }
  }

  lemma {:induction false} ListStands(f: Format, ns: NamespaceId, m: Store, payloadOf: PayloadSource, areas: seq<Area>,
                                      answers: seq<seq<LengthyEntry>>, orders: seq<seq<Key>>, items: seq<Item>)
    requires ValidAreas(f, areas) && ListsAreas(f, ns, m, payloadOf, areas, answers, orders, items)
    ensures StandsFor(ns, m, payloadOf, items, ListedBy(f, m, areas))
    decreases |areas|
  {
    if areas != [] {
      var n := |areas| - 1;
      var init := items[..|items| - |answers[n]|];
      ListStands(f, ns, m, payloadOf, areas[..n], answers[..n], orders[..n], init);
      AnswerStands(ns, m, payloadOf, ListedKeys(f, m, areas[n]), orders[n], answers[n]);
      assert items == init + ItemsOf(payloadOf, answers[n]);
      StandTogether(ns, m, payloadOf, init, ItemsOf(payloadOf, answers[n]), ListedBy(f, m, areas[..n]), ListedKeys(f, m, areas[n]));
    }
  }

  /** None of these records of the store makes another one obsolete. */
  ghost predicate Settled(ns: NamespaceId, m: Store, ks: set<Key>) {
    forall k, j | k in ks && k in m && j in ks && j in m && k != j ::
      !DominatedBy(Restore(ns, k, m[k]).entry, Restore(ns, j, m[j]).entry)
  }

  /** Where nothing unpruned ties, a store is settled after any ingestions. */
  lemma IngestionSettles(ns: NamespaceId, es: seq<AuthorisedEntry>)
    requires OneNamespace(ns, Elements(es)) && NoUnprunedTies(Elements(es))
    ensures Settled(ns, IngestAll(ns, es), IngestAll(ns, es).Keys)
  {
    IngestionConverges(ns, es);
    CoversAll(ns, es);
    var m := IngestAll(ns, es);
    var c := Contents(ns, m);
    forall k, j | k in m && j in m && k != j ensures !DominatedBy(Restore(ns, k, m[k]).entry, Restore(ns, j, m[j]).entry) {
      assert Restore(ns, k, m[k]) in c && Restore(ns, j, m[j]) in c;
      NotDominated(c, Restore(ns, k, m[k]), Restore(ns, j, m[j]));
    }
  }

  lemma NotDominated(c: set<AuthorisedEntry>, a: AuthorisedEntry, b: AuthorisedEntry)
    requires Antichain(c) && a in c && b in c && a != b && !Tie(b, a) && a.entry.namespaceId == b.entry.namespaceId
    ensures !DominatedBy(a.entry, b.entry)
  {
    assert !Blocked(c, a);
  }

  /** Forgetting, and payloads that come and go, leave a store settled. */
  lemma StaysSettled(ns: NamespaceId, m: Store, m': Store)
    requires Settled(ns, m, m.Keys) && forall k | k in m' :: k in m && m'[k] == m[k].(available := m'[k].available)
    ensures Settled(ns, m', m'.Keys)
  {
    assert forall k | k in m' :: Restore(ns, k, m'[k]) == Restore(ns, k, m[k]);
  }

  /** Entries of areas whose ranges are exact have paths of the full number of components, so that none
      of them makes another one obsolete, whatever store they are from. */
  lemma ExactAreasSettled(f: Format, ns: NamespaceId, m: Store, areas: seq<Area>)
    requires ValidStore(f.lim, f.width, m) && forall i | 0 <= i < |areas| :: AreaRangeExact(f.lim, areas[i])
    ensures Settled(ns, m, InAreas(m, areas))
  {
    forall k | k in InAreas(m, areas) ensures |k.path| == f.lim.mcc {
      assert ValidRecord(f.lim, f.width, k, m[k]);
    }
    forall k: Key, j: Key | |k.path| == f.lim.mcc && |j.path| == f.lim.mcc && j.path <= k.path ensures j.path == k.path {}
  }

  /** The payloads of the store are those that its entries name. */
  ghost predicate TruePayloads(hash: Hash, ns: NamespaceId, m: Store, payloadOf: PayloadSource) {
    forall k | k in m && m[k].available == m[k].payloadLength :: hash(payloadOf(Restore(ns, k, m[k]))) == m[k].digest
  }

  lemma StandingItemsCoexist(hash: Hash, ns: NamespaceId, m: Store, payloadOf: PayloadSource, items: seq<Item>, ks: set<Key>)
    requires StandsFor(ns, m, payloadOf, items, ks) && Settled(ns, m, ks) && TruePayloads(hash, ns, m, payloadOf)
    ensures Coexist(items) && PayloadsMatch(hash, items)
  {
    forall i, j | 0 <= i < |items| && 0 <= j < |items|
      ensures items[i] == items[j] || !DominatedBy(items[i].entry.entry, items[j].entry.entry)
    {
      assert Stands(ns, m, payloadOf, items[i], ks) && Stands(ns, m, payloadOf, items[j], ks);
    }
    forall i | 0 <= i < |items| ensures PayloadMatches(hash, items[i]) {
      assert Stands(ns, m, payloadOf, items[i], ks);
    }
  }

  /** What arrives of a record: its payload if all of it was there, and none of it otherwise. */
  function Delivered(r: Record): Record {
    if r.available == r.payloadLength then r else r.(available := 0)
  }

  lemma DeliveredAs(ns: NamespaceId, m: Store, payloadOf: PayloadSource, k: Key)
    requires k in m && LawfulSource(payloadOf)
    ensures RecordOf(ItemAt(ns, m, payloadOf, k)) == Delivered(m[k])
  {}

  lemma StandingItemsHeld(ns: NamespaceId, m: Store, m': Store, payloadOf: PayloadSource, items: seq<Item>, ks: set<Key>)
    requires StandsFor(ns, m, payloadOf, items, ks) && HoldsItems(m', items) && LawfulSource(payloadOf)
    ensures m'.Keys == ks && ks <= m.Keys && forall k | k in ks :: m'[k] == Delivered(m[k])
  {
    forall k | k in ks ensures k in m' && k in m && m'[k] == Delivered(m[k]) {
      var i :| 0 <= i < |items| && KeyOf(items[i].entry.entry) == k;
      assert Stands(ns, m, payloadOf, items[i], ks);
      DeliveredAs(ns, m, payloadOf, k);
    }
    forall k | k in m' ensures k in ks {
      var i :| 0 <= i < |items| && k == KeyOf(items[i].entry.entry);
      assert Stands(ns, m, payloadOf, items[i], ks);
    }
  }

  lemma CountedAndListed(f: Format, m: Store, areas: seq<Area>, k: Key)
    requires ValidAreas(f, areas) && ValidStore(f.lim, f.width, m) && forall i | 0 <= i < |areas| :: AreaRangeExact(f.lim, areas[i])
    ensures k in ListedBy(f, m, areas) <==> k in m && exists i :: 0 <= i < |areas| && AreaIncludes(areas[i], k.subspace, k.path, m[k].timestamp)
  {
    ListedByAny(f, m, areas, k);
    forall i | 0 <= i < |areas| ensures ListedKeys(f, m, areas[i]) == AreaHits(m, areas[i], DEFAULT_IGNORE) {
      AreaQueryAgrees(f.lim, f.width, areas[i], DEFAULT_IGNORE, m);
    }
  }

  lemma ListedInAreas(f: Format, m: Store, areas: seq<Area>)
    requires ValidAreas(f, areas) && ValidStore(f.lim, f.width, m) && forall i | 0 <= i < |areas| :: AreaRangeExact(f.lim, areas[i])
    ensures ListedBy(f, m, areas) == InAreas(m, areas)
  {
    forall k ensures k in ListedBy(f, m, areas) <==> k in InAreas(m, areas) { CountedAndListed(f, m, areas, k); }
  }

  /** What a store holds after it ingested items that stand for some records of another one. */
  lemma ItemsDelivered(f: Format, hash: Hash, ns: NamespaceId, m: Store, payloadOf: PayloadSource, items: seq<Item>, ks: set<Key>)
    requires StandsFor(ns, m, payloadOf, items, ks) && ValidItems(f, ns, items) && LawfulSource(payloadOf)
    requires Settled(ns, m, ks) && TruePayloads(hash, ns, m, payloadOf)
    ensures var r := IngestInto(hash, ns, map[], items);
      r.Ok? && r.value.Keys == ks && ks <= m.Keys && forall k | k in ks :: r.value[k] == Delivered(m[k])
  {
    StandingItemsCoexist(hash, ns, m, payloadOf, items, ks);
    CoexistingIngestedIff(hash, ns, items);
    StandingItemsHeld(ns, m, IngestInto(hash, ns, map[], items).value, payloadOf, items, ks);
  }

  /** Whatever areas a drop was made of: if it decodes to what they list, and none of that makes anything
      else of it obsolete, an empty store ends up with precisely the listed entries. */
  lemma ListArrives(f: Format, hash: Hash, ns: NamespaceId, m: Store, payloadOf: PayloadSource, areas: seq<Area>,
                    answers: seq<seq<LengthyEntry>>, orders: seq<seq<Key>>, items: seq<Item>)
    requires StoreFits(f, ns, m) && LawfulSource(payloadOf) && TruePayloads(hash, ns, m, payloadOf)
    requires ValidAreas(f, areas) && ListsAreas(f, ns, m, payloadOf, areas, answers, orders, items)
    requires Settled(ns, m, ListedBy(f, m, areas))
    ensures var r := IngestInto(hash, ns, map[], items);
      r.Ok? && r.value.Keys == ListedBy(f, m, areas) <= m.Keys && forall k | k in r.value :: r.value[k] == Delivered(m[k])
  {
    ListedItems(f, ns, m, payloadOf, areas, answers, orders, items);
    ListStands(f, ns, m, payloadOf, areas, answers, orders, items);
    ItemsDelivered(f, hash, ns, m, payloadOf, items, ListedBy(f, m, areas));
  }

  /** An empty store that ingests the items ends up with the entries of the areas. */
  ghost predicate Carries(hash: Hash, ns: NamespaceId, m: Store, areas: seq<Area>, items: seq<Item>) {
    match IngestInto(hash, ns, map[], items)
    case Ok(after) => after.Keys == InAreas(m, areas) && forall k | k in after :: k in m && after[k] == Delivered(m[k])
    case Err(_) => false
  }

  /** A drop of areas whose ranges are exact is ingested by an empty store, and leaves precisely the
      entries of the areas there, with every payload that the first store had all of. */
  lemma DropArrives(f: Format, hash: Hash, ns: NamespaceId, m: Store, payloadOf: PayloadSource, areas: seq<Area>,
                    answers: seq<seq<LengthyEntry>>, orders: seq<seq<Key>>, items: seq<Item>)
    requires StoreFits(f, ns, m) && LawfulSource(payloadOf) && TruePayloads(hash, ns, m, payloadOf)
    requires ValidAreas(f, areas) && ListsAreas(f, ns, m, payloadOf, areas, answers, orders, items)
    requires forall i | 0 <= i < |areas| :: AreaRangeExact(f.lim, areas[i])
    ensures Carries(hash, ns, m, areas, items)
  {
    ListedInAreas(f, m, areas);
    ExactAreasSettled(f, ns, m, areas);
    ListArrives(f, hash, ns, m, payloadOf, areas, answers, orders, items);
  }

  /** Sideloading as a whole: a drop is made of areas whose ranges are exact, and an empty store ingests it. */
  method Sideload(f: Format, from: SledStore, to: ControlStore, start: AuthorisedEntry, payloadOf: PayloadSource, hash: Hash, chop: Chop,
                  areas: seq<Area>) returns (r: Option<Result<seq<byte>, IngestDropError>>)
    requires from.Valid() && from.lim == f.lim && from.width == f.width && MaxPathExists(f.lim)
    requires LawfulFormat(f) && LawfulSource(payloadOf) && LawfulChop(chop) && ValidAreas(f, areas)
    requires StoreFits(f, from.namespace, from.view) && Counted(from.view, areas) < U64_LIMIT && start.entry.timestamp < U64_LIMIT
    requires TruePayloads(hash, from.namespace, from.view, payloadOf)
    requires to.View() == map[] && to.namespace == from.namespace
    requires forall i | 0 <= i < |areas| :: AreaRangeExact(f.lim, areas[i])
    modifies to
    ensures r == if InAreas(from.view, areas) == {} then None else Some(Ok([]))
    ensures to.View().Keys == InAreas(from.view, areas)
    ensures forall k | k in to.View() :: k in from.view && to.View()[k] == Delivered(from.view[k])
  {
    var drop;
    ghost var items;
    drop, items := DropOfExactAreas(f, from, start, payloadOf, hash, areas);
    if drop.None? { return None; }
    var ingested := IngestWhole(f, to, start, drop.value, hash, chop, items);
    return Some(ingested);
  }

  method DropOfExactAreas(f: Format, from: SledStore, start: AuthorisedEntry, payloadOf: PayloadSource, ghost hash: Hash, areas: seq<Area>)
      returns (drop: Option<seq<byte>>, ghost items: seq<Item>)
    requires from.Valid() && from.lim == f.lim && from.width == f.width && MaxPathExists(f.lim)
    requires LawfulFormat(f) && LawfulSource(payloadOf) && ValidAreas(f, areas)
    requires StoreFits(f, from.namespace, from.view) && Counted(from.view, areas) < U64_LIMIT && start.entry.timestamp < U64_LIMIT
    requires TruePayloads(hash, from.namespace, from.view, payloadOf)
    requires forall i | 0 <= i < |areas| :: AreaRangeExact(f.lim, areas[i])
    ensures drop.None? <==> InAreas(from.view, areas) == {}
    ensures drop.Some? ==> DecodeDrop(f, from.namespace, start, drop.value) == Some((items, []))
    ensures drop.Some? ==> Carries(hash, from.namespace, from.view, areas, items)
  {
    ghost var answers, orders;
    drop, answers, orders, items := CreateDrop(f, from, start, payloadOf, areas);
    NothingCountedIff(f, from.view, areas);
    if drop.Some? { DropArrives(f, hash, from.namespace, from.view, payloadOf, areas, answers, orders, items); }
  }

  /** Ingest a drop of which all is known to be acceptable. */
  method IngestWhole(f: Format, to: ControlStore, start: AuthorisedEntry, drop: seq<byte>, hash: Hash, chop: Chop, ghost items: seq<Item>)
      returns (r: Result<seq<byte>, IngestDropError>)
    requires LawfulChop(chop) && to.View() == map[]
    requires DecodeDrop(f, to.namespace, start, drop) == Some((items, [])) && IngestInto(hash, to.namespace, map[], items).Ok?
    modifies to
    ensures r == Ok([]) && to.View() == IngestInto(hash, to.namespace, map[], items).value
  {
    r := IngestDrop(f, to, start, drop, hash, chop);
  }

  lemma NothingCountedIff(f: Format, m: Store, areas: seq<Area>)
    requires ValidAreas(f, areas) && ValidStore(f.lim, f.width, m) && forall i | 0 <= i < |areas| :: AreaRangeExact(f.lim, areas[i])
    ensures Counted(m, areas) == 0 <==> InAreas(m, areas) == {}
  {
    NothingListed(f, m, areas);
    ListedInAreas(f, m, areas);
  }

  lemma {:induction false} NothingListed(f: Format, m: Store, areas: seq<Area>)
    requires ValidAreas(f, areas) && ValidStore(f.lim, f.width, m) && forall i | 0 <= i < |areas| :: AreaRangeExact(f.lim, areas[i])
    ensures Counted(m, areas) == 0 <==> ListedBy(f, m, areas) == {}
  {
    if areas != [] {
      var area := areas[|areas| - 1];
      NothingListed(f, m, areas[..|areas| - 1]);
      AreaQueryAgrees(f.lim, f.width, area, DEFAULT_IGNORE, m);
      assert Forgotten(m, area, None) == AreaHits(m, area, DEFAULT_IGNORE);
    }
  }
}
