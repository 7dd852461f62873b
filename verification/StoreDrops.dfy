/** Creating a drop from a store: areas are counted first, and then listed through their ranges. */
module StoreDrops {
  import opened Wrappers
  import opened ByteStrings
  import opened Paths
  import opened Grouping
  import opened Entries
  import opened Queries
  import opened SledStores
  import opened PathEncodings
  import opened AreaTallies
  import opened Drops

  /** How to get the payload of an entry that a store has all of. */
  type PayloadSource = AuthorisedEntry -> seq<byte>

  ghost predicate LawfulSource(payloadOf: PayloadSource) {
    forall a :: |payloadOf(a)| == a.entry.payloadLength
  }

  function ItemOf(payloadOf: PayloadSource, x: LengthyEntry): Item {
    Item(x.0, if x.1 == x.0.entry.payloadLength then Some(payloadOf(x.0)) else None)
  }

  function ItemsOf(payloadOf: PayloadSource, xs: seq<LengthyEntry>): seq<Item> {
    if xs == [] then [] else ItemsOf(payloadOf, xs[..|xs| - 1]) + [ItemOf(payloadOf, xs[|xs| - 1])]
  }

  /** Each entry comes with its payload if all of it is there, be it empty, and without any of it otherwise. */
  lemma {:induction false} PayloadsTravelWhole(payloadOf: PayloadSource, xs: seq<LengthyEntry>)
    ensures |ItemsOf(payloadOf, xs)| == |xs|
    ensures forall i | 0 <= i < |xs| ::
      var item, (a, available) := ItemsOf(payloadOf, xs)[i], xs[i];
      && item.entry == a
      && (available == a.entry.payloadLength ==> item.payload == Some(payloadOf(a)))
      && (available != a.entry.payloadLength ==> item.payload == None)
  {
    if xs != [] { PayloadsTravelWhole(payloadOf, xs[..|xs| - 1]); }
  }

  /** A store of authorised entries that is not too large to be counted. */
  ghost predicate StoreFits(f: Format, ns: NamespaceId, m: Store) {
    && ValidStore(f.lim, f.width, m) && |m| < U64_LIMIT
    && forall k | k in m :: f.isAuthorised(Restore(ns, k, m[k]).entry, m[k].token)
  }

  predicate ValidAreas(f: Format, areas: seq<Area>) {
    forall i | 0 <= i < |areas| :: ValidArea(f.lim, f.width, areas[i]) && ValidTimes(areas[i].times)
  }

  /** What the counts of some areas add up to. */
  function Counted(m: Store, areas: seq<Area>): nat {
    if areas == [] then 0 else Counted(m, areas[..|areas| - 1]) + |Forgotten(m, areas[|areas| - 1], None)|
  }

  function ListedKeys(f: Format, m: Store, area: Area): set<Key>
    requires ValidArea(f.lim, f.width, area)
  {
    RangeHits(m, RangeFromArea(f.lim, f.width, area), DEFAULT_IGNORE)
  }

  /** How many entries the same areas yield. */
  function Listed(f: Format, m: Store, areas: seq<Area>): nat
    requires ValidAreas(f, areas)
  {
    if areas == [] then 0 else Listed(f, m, areas[..|areas| - 1]) + |ListedKeys(f, m, areas[|areas| - 1])|
  }

  /** The items of some areas, area by area, each area's as its query answered. */
  ghost predicate ListsAreas(f: Format, ns: NamespaceId, m: Store, payloadOf: PayloadSource, areas: seq<Area>,
                             answers: seq<seq<LengthyEntry>>, orders: seq<seq<Key>>, items: seq<Item>)
    requires ValidAreas(f, areas)
  {
    if areas == [] then answers == [] && orders == [] && items == []
    else
      var n := |areas| - 1;
      && |answers| == |orders| == n + 1
      && Answers(ns, m, ListedKeys(f, m, areas[n]), orders[n], answers[n])
      && |items| >= |answers[n]|
      && items[|items| - |answers[n]|..] == ItemsOf(payloadOf, answers[n])
      && ListsAreas(f, ns, m, payloadOf, areas[..n], answers[..n], orders[..n], items[..|items| - |answers[n]|])
  }

  lemma {:induction false} ItemsOfLength(payloadOf: PayloadSource, xs: seq<LengthyEntry>)
    ensures |ItemsOf(payloadOf, xs)| == |xs|
    ensures forall i | 0 <= i < |xs| :: ItemsOf(payloadOf, xs)[i] == ItemOf(payloadOf, xs[i])
  {
    if xs != [] { ItemsOfLength(payloadOf, xs[..|xs| - 1]); }
  }

  lemma AnswerItemsValid(f: Format, ns: NamespaceId, m: Store, payloadOf: PayloadSource, ks: set<Key>, order: seq<Key>, xs: seq<LengthyEntry>)
    requires StoreFits(f, ns, m) && LawfulSource(payloadOf) && Answers(ns, m, ks, order, xs)
    ensures ValidItems(f, ns, ItemsOf(payloadOf, xs))
  {
    AnswersExpand(ns, m, ks, order, xs);
    ItemsOfLength(payloadOf, xs);
    forall i | 0 <= i < |xs| ensures ValidItem(f, ns, ItemsOf(payloadOf, xs)[i]) {
      assert ValidRecord(f.lim, f.width, order[i], m[order[i]]);
    }
  }

  /** The items of all areas are valid, and as many as were listed. */
  lemma {:induction false} ListedItems(f: Format, ns: NamespaceId, m: Store, payloadOf: PayloadSource, areas: seq<Area>,
                                       answers: seq<seq<LengthyEntry>>, orders: seq<seq<Key>>, items: seq<Item>)
    requires ValidAreas(f, areas) && StoreFits(f, ns, m) && LawfulSource(payloadOf)
    requires ListsAreas(f, ns, m, payloadOf, areas, answers, orders, items)
    ensures |items| == Listed(f, m, areas) && ValidItems(f, ns, items)
    decreases |areas|
  {
    if areas != [] {
      var n := |areas| - 1;
      var init := items[..|items| - |answers[n]|];
      ListedItems(f, ns, m, payloadOf, areas[..n], answers[..n], orders[..n], init);
      AnswerItemsValid(f, ns, m, payloadOf, ListedKeys(f, m, areas[n]), orders[n], answers[n]);
      AnswerMembers(ns, m, ListedKeys(f, m, areas[n]), orders[n], answers[n]);
      assert items == init + ItemsOf(payloadOf, answers[n]);
      ItemsOfLength(payloadOf, answers[n]);
      ValidTogether(f, ns, init, ItemsOf(payloadOf, answers[n]));
    }
  }

  lemma ValidTogether(f: Format, ns: NamespaceId, a: seq<Item>, b: seq<Item>)
    requires ValidItems(f, ns, a) && ValidItems(f, ns, b)
    ensures ValidItems(f, ns, a + b)
  {}

  /** One more area, listed after the others. */
  lemma ListsOneMore(f: Format, ns: NamespaceId, m: Store, payloadOf: PayloadSource, areas: seq<Area>, answers: seq<seq<LengthyEntry>>,
                     orders: seq<seq<Key>>, items: seq<Item>, area: Area, found: seq<LengthyEntry>, order: seq<Key>)
    requires ValidAreas(f, areas + [area]) && ValidAreas(f, areas) && ListsAreas(f, ns, m, payloadOf, areas, answers, orders, items)
    requires ValidArea(f.lim, f.width, area) && Answers(ns, m, ListedKeys(f, m, area), order, found)
    ensures ListsAreas(f, ns, m, payloadOf, areas + [area], answers + [found], orders + [order], items + ItemsOf(payloadOf, found))
  {
    var areas', answers', orders' := areas + [area], answers + [found], orders + [order];
    var items' := items + ItemsOf(payloadOf, found);
    ItemsOfLength(payloadOf, found);
    assert areas'[..|areas|] == areas && answers'[..|answers|] == answers && orders'[..|orders|] == orders;
    assert items'[..|items|] == items && items'[|items|..] == ItemsOf(payloadOf, found);
    assert |answers| == |orders| == |areas| by { SameLengths(f, ns, m, payloadOf, areas, answers, orders, items); }
  }

  lemma SameLengths(f: Format, ns: NamespaceId, m: Store, payloadOf: PayloadSource, areas: seq<Area>, answers: seq<seq<LengthyEntry>>,
                    orders: seq<seq<Key>>, items: seq<Item>)
    requires ValidAreas(f, areas) && ListsAreas(f, ns, m, payloadOf, areas, answers, orders, items)
    ensures |answers| == |orders| == |areas|
  {}

  /** Areas whose ranges are exact yield as many entries as they count. */
  lemma {:induction false} ExactAreasAgree(f: Format, m: Store, areas: seq<Area>)
    requires ValidAreas(f, areas) && ValidStore(f.lim, f.width, m)
    requires forall i | 0 <= i < |areas| :: AreaRangeExact(f.lim, areas[i])
    ensures Counted(m, areas) == Listed(f, m, areas)
  {
    if areas != [] {
      var area := areas[|areas| - 1];
      ExactAreasAgree(f, m, areas[..|areas| - 1]);
      AreaQueryAgrees(f.lim, f.width, area, DEFAULT_IGNORE, m);
      assert Forgotten(m, area, None) == AreaHits(m, area, DEFAULT_IGNORE);
    }
  }

  // ---------------------------------------------------------------- what arrives of a drop

  /** The drop made of some items delivers all of them, or there is nothing to deliver and no drop. */
  ghost predicate Delivers(f: Format, ns: NamespaceId, start: AuthorisedEntry, counted: nat, items: seq<Item>) {
    var drop := EncodeDrop(f, ns, start, counted, items);
    if drop.None? then items == [] else DecodeDrop(f, ns, start, drop.value) == Some((items, []))
  }

  lemma DeliversIff(f: Format, ns: NamespaceId, start: AuthorisedEntry, counted: nat, items: seq<Item>)
    requires LawfulFormat(f) && ValidItems(f, ns, items) && start.entry.timestamp < U64_LIMIT && counted < U64_LIMIT
    ensures Delivers(f, ns, start, counted, items) <==> counted == |items|
  {
    if counted > 0 { DropRoundTripIff(f, ns, start, counted, items); }
  }

  /** From any store, a drop of areas whose ranges are exact delivers every listed entry. */
  lemma ExactAreasDeliver(f: Format, ns: NamespaceId, start: AuthorisedEntry, m: Store, payloadOf: PayloadSource, areas: seq<Area>,
                          answers: seq<seq<LengthyEntry>>, orders: seq<seq<Key>>, items: seq<Item>)
    requires LawfulFormat(f) && StoreFits(f, ns, m) && LawfulSource(payloadOf) && start.entry.timestamp < U64_LIMIT
    requires ValidAreas(f, areas) && Counted(m, areas) < U64_LIMIT
    requires ListsAreas(f, ns, m, payloadOf, areas, answers, orders, items)
    requires forall i | 0 <= i < |areas| :: AreaRangeExact(f.lim, areas[i])
    ensures Delivers(f, ns, start, Counted(m, areas), items)
  {
    ListedItems(f, ns, m, payloadOf, areas, answers, orders, items);
    ExactAreasAgree(f, m, areas);
    DeliversIff(f, ns, start, Counted(m, areas), items);
  }

  /** Every entry of the namespace can be authorised. */
  ghost predicate Authorisable(f: Format, ns: NamespaceId) {
    forall e: Entry | e.namespaceId == ns :: exists t :: f.isAuthorised(e, t)
  }

  /** Counting and listing some areas of a store, and delivering what was listed. */
  ghost predicate AreasDeliver(f: Format, ns: NamespaceId, start: AuthorisedEntry, m: Store, payloadOf: PayloadSource, areas: seq<Area>,
                               answers: seq<seq<LengthyEntry>>, orders: seq<seq<Key>>, items: seq<Item>)
    requires ValidAreas(f, areas)
  {
    ListsAreas(f, ns, m, payloadOf, areas, answers, orders, items) ==> Delivers(f, ns, start, Counted(m, areas), items)
  }

  /** A drop of some areas delivers what the areas list, from every store and in every order, if and only
      if the ranges of all areas are exact. Where they are not, a store with a single entry shows it. */
  lemma AreasDropIff(f: Format, ns: NamespaceId, start: AuthorisedEntry, payloadOf: PayloadSource, areas: seq<Area>)
    requires LawfulFormat(f) && LawfulSource(payloadOf) && Authorisable(f, ns) && start.entry.timestamp < U64_LIMIT
    requires ValidAreas(f, areas) && |areas| < U64_LIMIT
    ensures (forall m, answers, orders, items | StoreFits(f, ns, m) && Counted(m, areas) < U64_LIMIT ::
              AreasDeliver(f, ns, start, m, payloadOf, areas, answers, orders, items))
      <==> forall i | 0 <= i < |areas| :: AreaRangeExact(f.lim, areas[i])
  {
    if i :| 0 <= i < |areas| && !AreaRangeExact(f.lim, areas[i]) {
      var s, p, t := TalliesDisagree(f.lim, f.width, areas, i);
      var m, answers, orders, items := DisputedStore(f, ns, start, payloadOf, areas, s, p, t);
      assert !AreasDeliver(f, ns, start, m, payloadOf, areas, answers, orders, items);
    } else {
      forall m, answers, orders, items | StoreFits(f, ns, m) && Counted(m, areas) < U64_LIMIT
        ensures AreasDeliver(f, ns, start, m, payloadOf, areas, answers, orders, items)
      {
        if ListsAreas(f, ns, m, payloadOf, areas, answers, orders, items) {
          ExactAreasDeliver(f, ns, start, m, payloadOf, areas, answers, orders, items);
        }
      }
    }
  }

  /** One entry that is counted more or less often than it is listed. */
  lemma DisputedStore(f: Format, ns: NamespaceId, start: AuthorisedEntry, payloadOf: PayloadSource, areas: seq<Area>,
                      s: SubspaceId, p: Path, t: nat)
      returns (m: Store, answers: seq<seq<LengthyEntry>>, orders: seq<seq<Key>>, items: seq<Item>)
    requires LawfulFormat(f) && LawfulSource(payloadOf) && Authorisable(f, ns) && start.entry.timestamp < U64_LIMIT
    requires ValidAreas(f, areas) && |areas| < U64_LIMIT && ValidSubspace(f.width, s) && ValidPath(f.lim, p) && t < U64_LIMIT
    requires Tally(InArea(areas, s, p, t)) != Tally(InRange(f.lim, f.width, areas, s, p, t))
    ensures StoreFits(f, ns, m) && Counted(m, areas) < U64_LIMIT
    ensures !AreasDeliver(f, ns, start, m, payloadOf, areas, answers, orders, items)
  {
    var k, e := Key(s, p), Entry(ns, s, p, t, 0, 0);
    assert e.namespaceId == ns;
    var token :| f.isAuthorised(e, token);
    m := map[k := SingleRecord(token, t)];
    assert k in m && Restore(ns, k, m[k]).entry == e;
    TalliesOfOne(f, m, k, areas);
    answers, orders, items := ListOne(f, ns, m, k, payloadOf, areas);
    ListedItems(f, ns, m, payloadOf, areas, answers, orders, items);
    DeliversIff(f, ns, start, Counted(m, areas), items);
  }

  /** With one entry, areas and ranges are merely tallied. */
  lemma {:induction false} TalliesOfOne(f: Format, m: Store, k: Key, areas: seq<Area>)
    requires ValidAreas(f, areas) && m.Keys == {k}
    ensures Counted(m, areas) == Tally(InArea(areas, k.subspace, k.path, m[k].timestamp)) <= |areas|
    ensures Listed(f, m, areas) == Tally(InRange(f.lim, f.width, areas, k.subspace, k.path, m[k].timestamp))
    decreases |areas|
  {
    if areas != [] {
      var n := |areas| - 1;
      var (s, p, t) := (k.subspace, k.path, m[k].timestamp);
      TalliesOfOne(f, m, k, areas[..n]);
      assert InArea(areas, s, p, t)[..n] == InArea(areas[..n], s, p, t);
      assert InRange(f.lim, f.width, areas, s, p, t)[..n] == InRange(f.lim, f.width, areas[..n], s, p, t);
      OneOrNone(k, Forgotten(m, areas[n], None));
      OneOrNone(k, ListedKeys(f, m, areas[n]));
    }
  }

  lemma {:induction false} ListOne(f: Format, ns: NamespaceId, m: Store, k: Key, payloadOf: PayloadSource, areas: seq<Area>)
      returns (answers: seq<seq<LengthyEntry>>, orders: seq<seq<Key>>, items: seq<Item>)
    requires ValidAreas(f, areas) && m.Keys == {k}
    ensures ListsAreas(f, ns, m, payloadOf, areas, answers, orders, items)
    decreases |areas|
  {
    answers, orders, items := [], [], [];
    if areas != [] {
      var n := |areas| - 1;
      answers, orders, items := ListOne(f, ns, m, k, payloadOf, areas[..n]);
      var order, found := AnswerOfAtMostOne(ns, m, k, ListedKeys(f, m, areas[n]));
      assert areas == areas[..n] + [areas[n]];
      ListsOneMore(f, ns, m, payloadOf, areas[..n], answers, orders, items, areas[n], found, order);
      answers, orders, items := answers + [found], orders + [order], items + ItemsOf(payloadOf, found);
    }
  }

  lemma OneOrNone(k: Key, ks: set<Key>)
    requires ks <= {k}
    ensures |ks| == if k in ks then 1 else 0
  {
    assert ks == if k in ks then {k} else {};
  }

  lemma AnswerOfAtMostOne(ns: NamespaceId, m: Store, k: Key, ks: set<Key>) returns (order: seq<Key>, xs: seq<LengthyEntry>)
    requires k in m && ks <= {k}
    ensures Answers(ns, m, ks, order, xs)
  {
    assert Answers(ns, m, {}, [], []);
    order, xs := [], [];
    if k in ks {
      AnswersStep(ns, m, {}, [], [], k);
      order, xs := [] + [k], [] + [LengthyOf(ns, m, k)];
      assert ks == {} + {k};
    } else {
      assert ks == {};
    }
  }

  /** A failing area and store: of the full area, an entry at the path of one empty component is counted
      and not listed. The drop announces it, holds nothing, and cannot be decoded. */
  lemma FullAreaDropFails(f: Format, ns: NamespaceId, start: AuthorisedEntry, token: Token)
    requires LawfulFormat(f) && 0 < f.lim.mcc
    ensures var m := map[Key(Zeros(f.width), [[]]) := SingleRecord(token, 0)];
      && ValidStore(f.lim, f.width, m) && |Forgotten(m, FULL_AREA, None)| == 1 && ListedKeys(f, m, FULL_AREA) == {}
      && EncodeDrop(f, ns, start, 1, []).Some? && DecodeDrop(f, ns, start, EncodeDrop(f, ns, start, 1, []).value) == None
  {
    var root, below: Path := [], [[]];
    var k, r := Key(Zeros(f.width), below), SingleRecord(token, 0);
    var m := map[k := r];
    assert k in m && m[k] == r && below[1..] == [] && root + [[]] == below;
    assert SuccessorOf(f.lim, root) == Some(below);
    PathLessIrreflexive(below);
    assert Forgotten(m, FULL_AREA, None) == {k};
    U64RoundTrip(1, f.encodeNamespace(ns) + []);
    assert f.decodeNamespace(f.encodeNamespace(ns) + []) == Some((ns, []));
  }

  // ---------------------------------------------------------------- the loops

  /** Count the entries of every area, and then write what every area yields. */
  method CreateDrop(f: Format, store: SledStore, start: AuthorisedEntry, payloadOf: PayloadSource, areas: seq<Area>)
      returns (r: Option<seq<byte>>, ghost answers: seq<seq<LengthyEntry>>, ghost orders: seq<seq<Key>>, ghost items: seq<Item>)
    requires store.Valid() && store.lim == f.lim && store.width == f.width && MaxPathExists(f.lim)
    requires LawfulFormat(f) && LawfulSource(payloadOf) && ValidAreas(f, areas)
    requires StoreFits(f, store.namespace, store.view) && Counted(store.view, areas) < U64_LIMIT && start.entry.timestamp < U64_LIMIT
    ensures r.None? <==> Counted(store.view, areas) == 0
    ensures r.Some? ==> ListsAreas(f, store.namespace, store.view, payloadOf, areas, answers, orders, items)
    ensures r.Some? ==> r == EncodeDrop(f, store.namespace, start, Counted(store.view, areas), items)
    ensures r.Some? ==> (DecodeDrop(f, store.namespace, start, r.value) == Some((items, []))
      <==> Counted(store.view, areas) == Listed(f, store.view, areas))
    ensures r.Some? && (forall i | 0 <= i < |areas| :: AreaRangeExact(f.lim, areas[i])) ==>
      DecodeDrop(f, store.namespace, start, r.value) == Some((items, []))
  {
    answers, orders, items := [], [], [];
    var entriesCount := CountAreas(f, store, areas);
    if entriesCount == 0 { return None, answers, orders, items; }
    var out;
    out, answers, orders, items := WriteAreas(f, store, start, payloadOf, areas);
    ghost var m := store.view;
    ListedItems(f, store.namespace, m, payloadOf, areas, answers, orders, items);
    DropRoundTripIff(f, store.namespace, start, entriesCount, items);
    if forall i | 0 <= i < |areas| :: AreaRangeExact(f.lim, areas[i]) { ExactAreasAgree(f, m, areas); }
    r := Some(EncodeU64(entriesCount) + (f.encodeNamespace(store.namespace) + out));
  }

  method CountAreas(f: Format, store: SledStore, areas: seq<Area>) returns (entriesCount: nat)
    requires store.Valid() && store.lim == f.lim && store.width == f.width && ValidAreas(f, areas)
    ensures entriesCount == Counted(store.view, areas)
  {
    entriesCount := 0;
    for i := 0 to |areas|
      invariant entriesCount == Counted(store.view, areas[..i])
    {
      assert areas[..i + 1][..i] == areas[..i];
      var counted := store.CountArea(areas[i]);
      entriesCount := entriesCount + counted;
    }
    assert areas[..|areas|] == areas;
  }

  method WriteAreas(f: Format, store: SledStore, start: AuthorisedEntry, payloadOf: PayloadSource, areas: seq<Area>)
      returns (out: seq<byte>, ghost answers: seq<seq<LengthyEntry>>, ghost orders: seq<seq<Key>>, ghost items: seq<Item>)
    requires store.Valid() && store.lim == f.lim && store.width == f.width && MaxPathExists(f.lim) && ValidAreas(f, areas)
    ensures out == EncodeItems(CoderFor(f, store.namespace), start, items)
    ensures ListsAreas(f, store.namespace, store.view, payloadOf, areas, answers, orders, items)
  {
    var k := CoderFor(f, store.namespace);
    var prev := start;
    out, answers, orders, items := [], [], [], [];
    for i := 0 to |areas|
      invariant out == EncodeItems(k, start, items) && prev == LastEntry(start, items)
      invariant ListsAreas(f, store.namespace, store.view, payloadOf, areas[..i], answers, orders, items)
    {
      out, prev, answers, orders, items := WriteNextArea(f, store, start, payloadOf, areas, i, out, prev, answers, orders, items);
    }
    assert areas[..|areas|] == areas;
  }

  method WriteNextArea(f: Format, store: SledStore, start: AuthorisedEntry, payloadOf: PayloadSource, areas: seq<Area>, i: nat,
                       out: seq<byte>, prev: AuthorisedEntry,
                       ghost answers: seq<seq<LengthyEntry>>, ghost orders: seq<seq<Key>>, ghost items: seq<Item>)
      returns (out': seq<byte>, prev': AuthorisedEntry,
               ghost answers': seq<seq<LengthyEntry>>, ghost orders': seq<seq<Key>>, ghost items': seq<Item>)
    requires store.Valid() && store.lim == f.lim && store.width == f.width && MaxPathExists(f.lim) && ValidAreas(f, areas)
    requires i < |areas| && out == EncodeItems(CoderFor(f, store.namespace), start, items) && prev == LastEntry(start, items)
    requires ListsAreas(f, store.namespace, store.view, payloadOf, areas[..i], answers, orders, items)
    ensures out' == EncodeItems(CoderFor(f, store.namespace), start, items') && prev' == LastEntry(start, items')
    ensures ListsAreas(f, store.namespace, store.view, payloadOf, areas[..i + 1], answers', orders', items')
  {
    var found, more;
    ghost var order;
    found, more, order := FetchArea(f, store, payloadOf, areas[i]);
    ListsNext(f, store.namespace, store.view, payloadOf, areas, i, answers, orders, items, found, order);
    out', prev' := WriteArea(CoderFor(f, store.namespace), start, items, more, out, prev);
    answers', orders', items' := answers + [found], orders + [order], items + more;
  }

  /** List an area, with payloads. */
  method FetchArea(f: Format, store: SledStore, payloadOf: PayloadSource, area: Area)
      returns (found: seq<LengthyEntry>, more: seq<Item>, ghost order: seq<Key>)
    requires store.Valid() && store.lim == f.lim && store.width == f.width && MaxPathExists(f.lim)
    requires ValidArea(f.lim, f.width, area) && ValidTimes(area.times)
    ensures Answers(store.namespace, store.view, ListedKeys(f, store.view, area), order, found)
    ensures more == ItemsOf(payloadOf, found)
  {
    found, order := store.QueryArea(area, DEFAULT_IGNORE);
    more := WithPayloads(payloadOf, found);
  }

  lemma ListsNext(f: Format, ns: NamespaceId, m: Store, payloadOf: PayloadSource, areas: seq<Area>, i: nat, answers: seq<seq<LengthyEntry>>,
                  orders: seq<seq<Key>>, items: seq<Item>, found: seq<LengthyEntry>, order: seq<Key>)
    requires ValidAreas(f, areas) && i < |areas| && ListsAreas(f, ns, m, payloadOf, areas[..i], answers, orders, items)
    requires Answers(ns, m, ListedKeys(f, m, areas[i]), order, found)
    ensures ListsAreas(f, ns, m, payloadOf, areas[..i + 1], answers + [found], orders + [order], items + ItemsOf(payloadOf, found))
  {
    assert areas[..i + 1] == areas[..i] + [areas[i]];
    ListsOneMore(f, ns, m, payloadOf, areas[..i], answers, orders, items, areas[i], found, order);
  }

  /** Fetch the payloads of the entries that a store has all of. */
  method WithPayloads(payloadOf: PayloadSource, found: seq<LengthyEntry>) returns (items: seq<Item>)
    ensures items == ItemsOf(payloadOf, found)
  {
    items := [];
    for i := 0 to |found|
      invariant items == ItemsOf(payloadOf, found[..i])
    {
      assert found[..i + 1][..i] == found[..i];
      items := items + [ItemOf(payloadOf, found[i])];
    }
    assert found[..|found|] == found;
  }
}
