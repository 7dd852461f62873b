/** Running the reference store and the persistent store side by side. */
module StoreEquality {
  import opened Wrappers
  import opened ByteStrings
  import opened Paths
  import opened Grouping
  import opened Entries
  import opened StoreEvents
  import opened Queries
  import opened ControlStores
  import opened SledStores

  datatype StoreOp =
    | IngestOp(a: AuthorisedEntry, preventPruning: bool, origin: EntryOrigin)
    | ForgetEntryOp(subspace: SubspaceId, path: Path, expected: Option<nat>)
    | ForgetAreaOp(area: Area, protected: Option<Area>)
    | GetEntryOp(subspace: SubspaceId, path: Path, ignore: QueryIgnoreParams)
    | QueryAreaOp(area: Area, ignore: QueryIgnoreParams)

  /** What the types of the arguments guarantee. */
  predicate ValidStoreOp(lim: Limits, width: nat, op: StoreOp) {
    match op
    case IngestOp(a, _, _) => ValidEntry(lim, width, a.entry)
    case ForgetEntryOp(s, p, _) => ValidSubspace(width, s) && ValidPath(lim, p)
    case ForgetAreaOp(area, _) => ValidArea(lim, width, area)
    case GetEntryOp(s, p, _) => ValidSubspace(width, s) && ValidPath(lim, p)
    case QueryAreaOp(area, _) => ValidArea(lim, width, area) && ValidTimes(area.times) && MaxPathExists(lim)
  }

  /** The queries on which the two stores are bound to agree. */
  predicate QueriesExactly(lim: Limits, op: StoreOp) {
    op.QueryAreaOp? ==> AreaRangeExact(lim, op.area)
  }

  /** The state that a run of one operation leads to. */
  ghost function AfterOp(ns: NamespaceId, m: Store, op: StoreOp): Store {
    match op
    case IngestOp(a, prevent, _) => if a.entry.namespaceId == ns then Ingest(ns, m, a, prevent).0 else m
    case ForgetEntryOp(s, p, expected) => Entries.ForgetEntry(m, Key(s, p), expected).0
    case ForgetAreaOp(area, protected) => Entries.ForgetArea(m, area, protected).0
    case GetEntryOp(_, _, _) => m
    case QueryAreaOp(_, _) => m
  }

  ghost function AfterOps(ns: NamespaceId, m: Store, ops: seq<StoreOp>): Store {
    if ops == [] then m else AfterOp(ns, AfterOps(ns, m, ops[..|ops| - 1]), ops[|ops| - 1])
  }

  /** One operation on both stores: they stay equal, and the answers agree. */
  method CheckOp(store1: ControlStore, store2: SledStore, op: StoreOp) returns (equal: bool)
    requires store2.Valid() && store1.View() == store2.view && store1.namespace == store2.namespace
    requires ValidStoreOp(store2.lim, store2.width, op)
    modifies store1, store2
    ensures store2.Valid()
    ensures store1.View() == store2.view == AfterOp(store2.namespace, old(store2.view), op)
    ensures QueriesExactly(store2.lim, op) ==> equal
    ensures op.QueryAreaOp? && equal ==>
      RangeHits(store2.view, RangeFromArea(store2.lim, store2.width, op.area), op.ignore)
        == AreaHits(store2.view, op.area, op.ignore)
  {
    match op
    case IngestOp(a, preventPruning, origin) => equal := CheckIngest(store1, store2, a, preventPruning, origin);
    case ForgetEntryOp(s, p, expected) => equal := CheckForget(store1, store2, s, p, expected);
    case ForgetAreaOp(area, protected) => equal := CheckForgetArea(store1, store2, area, protected);
    case GetEntryOp(s, p, ignore) =>
      var r1 := store1.GetEntry(s, p, ignore);
      var r2 := store2.GetEntry(s, p, ignore);
      equal := r1 == r2;
    case QueryAreaOp(area, ignore) => equal := CheckQuery(store1, store2, area, ignore);
  }

  method CheckIngest(store1: ControlStore, store2: SledStore, a: AuthorisedEntry, preventPruning: bool, origin: EntryOrigin)
      returns (equal: bool)
    requires store2.Valid() && store1.View() == store2.view && store1.namespace == store2.namespace
    requires ValidEntry(store2.lim, store2.width, a.entry)
    modifies store1, store2
    ensures store2.Valid() && equal
    ensures store1.View() == store2.view ==
      if a.entry.namespaceId == store2.namespace then Ingest(store2.namespace, old(store2.view), a, preventPruning).0 else old(store2.view)
  {
    if a.entry.namespaceId != store1.namespace { return true; }
    var r1 := store1.IngestEntry(a, preventPruning, origin);
    var r2 := store2.IngestEntry(a, preventPruning, origin);
    equal := r1 == r2;
  }

  method CheckForget(store1: ControlStore, store2: SledStore, s: SubspaceId, p: Path, expected: Option<nat>) returns (equal: bool)
    requires store2.Valid() && store1.View() == store2.view && store1.namespace == store2.namespace && ValidSubspace(store2.width, s)
    modifies store1, store2
    ensures store2.Valid() && equal
    ensures store1.View() == store2.view == Entries.ForgetEntry(old(store2.view), Key(s, p), expected).0
  {
    var r1 := store1.ForgetEntry(s, p, expected);
    var r2 := store2.ForgetEntry(s, p, expected);
    equal := r1 == r2;
  }

  method CheckForgetArea(store1: ControlStore, store2: SledStore, area: Area, protected: Option<Area>) returns (equal: bool)
    requires store2.Valid() && store1.View() == store2.view && store1.namespace == store2.namespace
    requires ValidArea(store2.lim, store2.width, area)
    modifies store1, store2
    ensures store2.Valid() && equal
    ensures store1.View() == store2.view == Entries.ForgetArea(old(store2.view), area, protected).0
  {
    var r1, _ := store1.ForgetArea(area, protected);
    var r2 := store2.ForgetArea(area, protected);
    equal := r1 == r2;
  }

  method CheckQuery(store1: ControlStore, store2: SledStore, area: Area, ignore: QueryIgnoreParams) returns (equal: bool)
    requires store2.Valid() && store1.View() == store2.view && store1.namespace == store2.namespace
    requires ValidArea(store2.lim, store2.width, area) && ValidTimes(area.times) && MaxPathExists(store2.lim)
    modifies store1, store2
    ensures store2.Valid() && store1.View() == store2.view == old(store2.view)
    ensures AreaRangeExact(store2.lim, area) ==> equal
    ensures equal ==>
      RangeHits(store2.view, RangeFromArea(store2.lim, store2.width, area), ignore) == AreaHits(store2.view, area, ignore)
  {
    var items1, order1 := store1.QueryArea(area, ignore);
    var items2, order2 := store2.QueryArea(area, ignore);
    equal := Members(items1) == Members(items2);
    ghost var ns, m := store2.namespace, store2.view;
    ghost var wanted := AreaHits(m, area, ignore);
    ghost var found := RangeHits(m, RangeFromArea(store2.lim, store2.width, area), ignore);
    AnswersDetermine(ns, m, wanted, order1, items1, found, order2, items2);
    if AreaRangeExact(store2.lim, area) { AreaQueryAgrees(store2.lim, store2.width, area, ignore, m); }
  }

  /** The differential check: it never finds a difference, as long as no area is queried
      whose range is not exact. */
  method CheckStoreEquality(store1: ControlStore, store2: SledStore, ops: seq<StoreOp>) returns (equal: bool)
    requires store2.Valid() && store1.View() == store2.view && store1.namespace == store2.namespace
    requires forall i | 0 <= i < |ops| :: ValidStoreOp(store2.lim, store2.width, ops[i])
    modifies store1, store2
    ensures store2.Valid() && store1.View() == store2.view
    ensures equal ==> store2.view == AfterOps(store2.namespace, old(store2.view), ops)
    ensures (forall i | 0 <= i < |ops| :: QueriesExactly(store2.lim, ops[i])) ==> equal
  {
    for i := 0 to |ops|
      invariant store2.Valid()
      invariant store1.View() == store2.view == AfterOps(store2.namespace, old(store2.view), ops[..i])
    {
      var equalNow := CheckOp(store1, store2, ops[i]);
      assert ops[..i + 1][..i] == ops[..i];
      if !equalNow { return false; }
    }
    assert ops[..|ops|] == ops;
    return true;
  }

  /** Counting an area and listing it: the numbers agree in every store if and only if the range is exact. */
  lemma CountMatchesQueryIff(lim: Limits, width: nat, area: Area, token: Token)
    requires ValidArea(lim, width, area) && area.times.start < U64_LIMIT
    ensures (forall m | ValidStore(lim, width, m) ::
              |Forgotten(m, area, None)| == |RangeHits(m, RangeFromArea(lim, width, area), DEFAULT_IGNORE)|)
      <==> AreaRangeExact(lim, area)
  {
    if AreaRangeExact(lim, area) {
      forall m | ValidStore(lim, width, m)
        ensures |Forgotten(m, area, None)| == |RangeHits(m, RangeFromArea(lim, width, area), DEFAULT_IGNORE)|
      {
        AreaQueryAgrees(lim, width, area, DEFAULT_IGNORE, m);
        assert Forgotten(m, area, None) == AreaHits(m, area, DEFAULT_IGNORE);
      }
    } else {
      var s, p := RangeDisagrees(lim, width, area);
      var k, r := Key(s, p), SingleRecord(token, area.times.start);
      var m: Store := map[k := r];
      var counted, listed := Forgotten(m, area, None), RangeHits(m, RangeFromArea(lim, width, area), DEFAULT_IGNORE);
      assert ValidStore(lim, width, m);
      assert counted <= {k} && listed <= {k} && (k in counted <==> k !in listed);
      assert |{k}| == 1 && (counted == {k} || counted == {}) && (listed == {k} || listed == {});
    }
  }
}
