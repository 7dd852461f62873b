/** Subscriptions to areas: what a subscriber collects, compared with the entries of the area. */
module AreaSubscriptions {
  import opened Wrappers
  import opened ByteStrings
  import opened Paths
  import opened Grouping
  import opened Entries
  import opened StoreEvents
  import opened Queries
  import opened Replay

  /** Both stores subscribe to an area by the range made of it. */
  function AreaSubscription(lim: Limits, width: nat, area: Area, ignore: QueryIgnoreParams): Subscription
    requires ValidArea(lim, width, area)
  {
    Subscription(lim, width, RangeFromArea(lim, width, area), ignore)
  }

  /** The part of a store that lies in an area and is not to be ignored. */
  function AreaPart(m: Store, area: Area, ignore: QueryIgnoreParams): Store {
    Part(m, AreaHits(m, area, ignore))
  }

  /** The subscribed part is what a query for the range finds. */
  lemma SubscribedIsRangePart(sub: Subscription, m: Store)
    ensures Subscribed(sub, m) == Part(m, RangeHits(m, sub.range, sub.ignore))
  {}

  lemma ExactSubscription(lim: Limits, width: nat, area: Area, ignore: QueryIgnoreParams, m: Store)
    requires ValidArea(lim, width, area) && ValidStore(lim, width, m) && AreaRangeExact(lim, area)
    ensures Subscribed(AreaSubscription(lim, width, area, ignore), m) == AreaPart(m, area, ignore)
  {
    SubscribedIsRangePart(AreaSubscription(lim, width, area, ignore), m);
    AreaQueryAgrees(lim, width, area, ignore, m);
  }

  /** An entry with a payload, so that it is ignored only together with its payload. */
  function EntryWithPayload(ns: NamespaceId, s: SubspaceId, p: Path, t: nat, token: Token): AuthorisedEntry {
    AuthorisedEntry(Entry(ns, s, p, t, 1, 0), token)
  }

  /** What a subscriber to an area collects from a log that starts with an empty store. */
  ghost function CollectedFrom(lim: Limits, width: nat, ns: NamespaceId, area: Area, ignore: QueryIgnoreParams, log: seq<QueuedOp>): Store
    requires ValidArea(lim, width, area)
  {
    EventsEffect(ns, map[], AllEvents(AreaSubscription(lim, width, area, ignore), log))
  }

  /** Over all runs, what a subscriber to an area collects is what the store holds of the area, if and
      only if the range made of the area is exact. */
  lemma AreaReplayIff(lim: Limits, width: nat, ns: NamespaceId, area: Area, ignore: QueryIgnoreParams, token: Token)
    requires ValidArea(lim, width, area) && area.times.start < U64_LIMIT && !ignore.ignoreIncompletePayloads
    ensures (forall log | LogFits(lim, width, ns, map[], log) ::
              CollectedFrom(lim, width, ns, area, ignore, log) == AreaPart(LogEffect(map[], log), area, ignore))
      <==> AreaRangeExact(lim, area)
  {
    if AreaRangeExact(lim, area) {
      forall log | LogFits(lim, width, ns, map[], log)
        ensures CollectedFrom(lim, width, ns, area, ignore, log) == AreaPart(LogEffect(map[], log), area, ignore)
      {
        CollectedIsSubscribed(lim, width, ns, area, ignore, log);
        ExactSubscription(lim, width, area, ignore, LogEffect(map[], log));
      }
    } else {
      var s, p := RangeDisagrees(lim, width, area);
      var a := EntryWithPayload(ns, s, p, area.times.start, token);
      var log := [Insertion(a, Local)];
      OneInsertion(lim, width, ns, a);
      CollectedIsSubscribed(lim, width, ns, area, ignore, log);
      var m := LogEffect(map[], log);
      var k := KeyOf(a.entry);
      assert k in m && m[k] == FreshRecord(a);
      assert k in Subscribed(AreaSubscription(lim, width, area, ignore), m) <==> k !in AreaPart(m, area, ignore);
    }
  }

  lemma CollectedIsSubscribed(lim: Limits, width: nat, ns: NamespaceId, area: Area, ignore: QueryIgnoreParams, log: seq<QueuedOp>)
    requires ValidArea(lim, width, area) && !ignore.ignoreIncompletePayloads && LogFits(lim, width, ns, map[], log)
    ensures ValidStore(lim, width, LogEffect(map[], log))
    ensures CollectedFrom(lim, width, ns, area, ignore, log)
      == Subscribed(AreaSubscription(lim, width, area, ignore), LogEffect(map[], log))
  {
    var sub := AreaSubscription(lim, width, area, ignore);
    AllReplay(sub, map[], log);
    ReplayRebuilds(sub, ns, map[], log);
    assert Subscribed(sub, map[]) == map[];
    LogEffectValid(lim, width, ns, map[], log);
  }

  /** The log of one ingestion into an empty store. */
  lemma OneInsertion(lim: Limits, width: nat, ns: NamespaceId, a: AuthorisedEntry)
    requires ValidEntry(lim, width, a.entry) && a.entry.namespaceId == ns
    ensures LogFits(lim, width, ns, map[], [Insertion(a, Local)])
    ensures LogEffect(map[], [Insertion(a, Local)]) == map[KeyOf(a.entry) := FreshRecord(a)]
  {
    var op := Insertion(a, Local);
    OneOpLog(lim, width, ns, map[], op);
    assert Prune(map[], a.entry) == map[];
  }

  /** A failing area: of the full area, a subscriber collects nothing but the entry at the empty path.
      One entry at the path of one empty component is in the area and is never collected. */
  lemma FullAreaMissed(lim: Limits, width: nat, ns: NamespaceId, ignore: QueryIgnoreParams, token: Token)
    requires 0 < lim.mcc && !ignore.ignoreIncompletePayloads
    ensures var a := EntryWithPayload(ns, Zeros(width), [[]], 0, token);
      var log := [Insertion(a, Local)];
      && LogFits(lim, width, ns, map[], log) && LogEffect(map[], log) == map[KeyOf(a.entry) := FreshRecord(a)]
      && CollectedFrom(lim, width, ns, FULL_AREA, ignore, log) == map[]
      && AreaPart(LogEffect(map[], log), FULL_AREA, ignore) == map[KeyOf(a.entry) := FreshRecord(a)]
  {
    var a := EntryWithPayload(ns, Zeros(width), [[]], 0, token);
    OneInsertion(lim, width, ns, a);
    CollectedIsSubscribed(lim, width, ns, FULL_AREA, ignore, [Insertion(a, Local)]);
    BelowNotSubscribed(lim, width, ignore, FreshRecord(a));
  }

  /** The range made of the full area holds nothing below the empty path. */
  lemma BelowNotSubscribed(lim: Limits, width: nat, ignore: QueryIgnoreParams, r: Record)
    requires 0 < lim.mcc && r.timestamp == 0
    ensures Subscribed(AreaSubscription(lim, width, FULL_AREA, ignore), map[Key(Zeros(width), [[]]) := r]) == map[]
  {
    var root, below: Path := [], [[]];
    assert below[1..] == [] && root + [[]] == below;
    assert SuccessorOf(lim, root) == Some(below);
    PathLessIrreflexive(below);
  }
}
