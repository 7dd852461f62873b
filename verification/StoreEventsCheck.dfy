/** The whole loop: a store reports its operations, a subscriber makes events of them at its own
    pace, and a second store collects the events. */
module StoreEventsCheck {
  import opened Wrappers
  import opened Paths
  import opened Grouping
  import opened Entries
  import opened StoreEvents
  import opened ControlStores
  import opened Replay
  import opened EventLog
  import opened Queries
  import opened AreaSubscriptions

  datatype Mutation =
    | Ingesting(a: AuthorisedEntry, preventPruning: bool, origin: EntryOrigin)
    | ForgettingEntry(subspace: SubspaceId, path: Path, expected: Option<nat>)
    | ForgettingArea(area: Area, protected: Option<Area>)
    | Appending(subspace: SubspaceId, path: Path, expected: Option<nat>, bytes: nat, digestMatches: bool)
    | ForgettingPayload(subspace: SubspaceId, path: Path, expected: Option<nat>)
    | ForgettingAreaPayloads(area: Area, protected: Option<Area>)

  predicate ValidMutation(lim: Limits, width: nat, ns: NamespaceId, op: Mutation) {
    match op
    case Ingesting(a, _, _) => ValidEntry(lim, width, a.entry) && a.entry.namespaceId == ns
    case ForgettingEntry(_, _, _) => true
    case ForgettingArea(area, protected) =>
      ValidArea(lim, width, area) && (protected.Some? ==> ValidArea(lim, width, protected.value))
    case Appending(_, _, _, _, _) => true
    case ForgettingPayload(_, _, _) => true
    case ForgettingAreaPayloads(area, protected) =>
      ValidArea(lim, width, area) && (protected.Some? ==> ValidArea(lim, width, protected.value))
  }

  predicate ValidMutations(lim: Limits, width: nat, ns: NamespaceId, ops: seq<Mutation>) {
    forall i | 0 <= i < |ops| :: ValidMutation(lim, width, ns, ops[i])
  }

  /** What one mutation reports fits the state before it and leads to the state after it. */
  method Perform(store: ControlStore, op: Mutation, ghost lim: Limits, ghost width: nat) returns (reported: seq<QueuedOp>)
    requires ValidStore(lim, width, store.View()) && ValidMutation(lim, width, store.namespace, op)
    modifies store
    ensures LogFits(lim, width, store.namespace, old(store.View()), reported)
    ensures store.View() == LogEffect(old(store.View()), reported)
  {
    var before := |store.queued|;
    match op {
      case Ingesting(a, preventPruning, origin) =>
        IngestOpsFit(lim, width, store.namespace, store.View(), a, preventPruning, origin);
        var _ := store.IngestEntry(a, preventPruning, origin);
      case ForgettingEntry(s, p, expected) =>
        ForgetEntryOpsFit(lim, width, store.namespace, store.View(), Key(s, p), expected);
        var _ := store.ForgetEntry(s, p, expected);
      case ForgettingArea(area, protected) =>
        ghost var was := store.View();
        var _, ops := store.ForgetArea(area, protected);
        ForgetAreaOpsFit(lim, width, store.namespace, was, area, protected, ops);
      case Appending(_, _, _, _, _) => PerformOnPayloads(store, op, lim, width);
      case ForgettingPayload(_, _, _) => PerformOnPayloads(store, op, lim, width);
      case ForgettingAreaPayloads(_, _) => PerformOnPayloads(store, op, lim, width);
    }
    reported := store.queued[before..];
  }

  method PerformOnPayloads(store: ControlStore, op: Mutation, ghost lim: Limits, ghost width: nat)
    requires ValidStore(lim, width, store.View()) && ValidMutation(lim, width, store.namespace, op)
    requires op.Appending? || op.ForgettingPayload? || op.ForgettingAreaPayloads?
    modifies store
    ensures |old(store.queued)| <= |store.queued| && store.queued[..|old(store.queued)|] == old(store.queued)
    ensures LogFits(lim, width, store.namespace, old(store.View()), store.queued[|old(store.queued)|..])
    ensures store.View() == LogEffect(old(store.View()), store.queued[|old(store.queued)|..])
  {
    ghost var was, before := store.View(), store.queued;
    ghost var ops := [];
    match op {
      case Appending(s, p, expected, bytes, digestMatches) =>
        ops := AppendOps(store.namespace, was, Key(s, p), expected, bytes, digestMatches);
        AppendOpsFit(lim, width, store.namespace, was, Key(s, p), expected, bytes, digestMatches);
        var _ := store.AppendSlice(s, p, expected, bytes, digestMatches);
      case ForgettingPayload(s, p, expected) =>
        var r := store.ForgetPayload(s, p, expected);
        if r.Ok? {
          ops := [ClearedOp(store.namespace, was, Key(s, p))];
          ForgetPayloadOpsFit(lim, width, store.namespace, was, Key(s, p));
        }
      case ForgettingAreaPayloads(area, protected) =>
        var _, reported := store.ForgetAreaPayloads(area, protected);
        ops := reported;
        ForgetAreaPayloadsOpsFit(lim, width, store.namespace, was, area, protected, ops);
    }
    assert store.queued == before + ops && store.queued[|before|..] == ops;
  }

  method EnqueueAll(events: EventSystem, ops: seq<QueuedOp>)
    requires events.Valid() && forall i | 0 <= i < |ops| :: OpOf(events.lim, events.width, events.namespace, ops[i])
    modifies events`opQueue, events`log, events.subscribers
    ensures events.Valid() && events.log == old(events.log) + ops
    ensures forall c | c in events.subscribers :: c.seen == old(c.seen)
  {
    if ops == [] { return; }
    ghost var log := events.log;
    events.EnqueueOp(ops[0]);
    EnqueueAll(events, ops[1..]);
    assert log + ops == (log + [ops[0]]) + ops[1..];
  }

  /** Apply one event to the collected store. */
  method Collect(collected: ControlStore, event: StoreEvent)
    requires event.IngestedEvent? ==> event.entry.entry.namespaceId == collected.namespace
    modifies collected
    ensures collected.View() == EventEffect(collected.namespace, old(collected.View()), event)
  {
    match event
    case IngestedEvent(a, origin) => CollectIngested(collected, a, origin);
    case EntryForgottenEvent(a) => CollectForgotten(collected, a);
    case AreaForgottenEvent(area, protected) => CollectAreaForgotten(collected, area, protected);
    case PruneAlertEvent(a) => collected.Prune(a);
    case AppendedEvent(a, previous, now) => if previous <= now { collected.Grow(a.entry.subspace, a.entry.path, now - previous); }
    case PayloadForgottenEvent(a) => CollectPayloadForgotten(collected, a);
    case AreaPayloadsForgottenEvent(area, protected) => var _, _ := collected.ForgetAreaPayloads(area, protected);
  }

  method CollectIngested(collected: ControlStore, a: AuthorisedEntry, origin: EntryOrigin)
    requires a.entry.namespaceId == collected.namespace
    modifies collected
    ensures collected.View() == Ingest(collected.namespace, old(collected.View()), a, false).0
  {
    var _ := collected.IngestEntry(a, false, origin);
  }

  method CollectForgotten(collected: ControlStore, a: AuthorisedEntry)
    modifies collected
    ensures collected.View() == Entries.ForgetEntry(old(collected.View()), KeyOf(a.entry), None).0
  {
    var _ := collected.ForgetEntry(a.entry.subspace, a.entry.path, None);
  }

  method CollectAreaForgotten(collected: ControlStore, area: Area, protected: Option<Area>)
    modifies collected
    ensures collected.View() == Entries.ForgetArea(old(collected.View()), area, protected).0
  {
    var _, _ := collected.ForgetArea(area, protected);
  }

  method CollectPayloadForgotten(collected: ControlStore, a: AuthorisedEntry)
    modifies collected
    ensures collected.View() == WithoutPayloads(old(collected.View()), {KeyOf(a.entry)})
  {
    var r := collected.ForgetPayload(a.entry.subspace, a.entry.path, None);
    if r.Err? { assert WithoutPayloads(collected.View(), {KeyOf(a.entry)}) == collected.View(); }
  }

  // ---------------------------------------------------------------- the loop

  datatype History = History(ns: NamespaceId, log: seq<QueuedOp>, store: Store)

  /** The log tells how the store came about. */
  ghost predicate Told(lim: Limits, width: nat, h: History) {
    match h
    case History(ns, log, store) => LogFits(lim, width, ns, map[], log) && LogEffect(map[], log) == store
  }

  lemma TellMore(lim: Limits, width: nat, h: History, reported: seq<QueuedOp>, store: Store)
    requires Told(lim, width, h) && LogFits(lim, width, h.ns, h.store, reported) && store == LogEffect(h.store, reported)
    ensures Told(lim, width, History(h.ns, h.log + reported, store))
  {
    LogFitsConcat(lim, width, h.ns, map[], h.log, reported);
    LogEffectConcat(map[], h.log, reported);
  }

  lemma ToldValid(lim: Limits, width: nat, h: History)
    requires Told(lim, width, h)
    ensures ValidStore(lim, width, h.store)
  {
    LogEffectValid(lim, width, h.ns, map[], h.log);
  }

  datatype Collection = Collection(ns: NamespaceId, emitted: seq<StoreEvent>, store: Store)

  /** The collected store is what the emitted events make of the empty store. */
  ghost predicate Collected(c: Collection) {
    match c
    case Collection(ns, emitted, store) => EventsEffect(ns, map[], emitted) == store
  }

  lemma CollectMore(c: Collection, event: StoreEvent, emitted: seq<StoreEvent>, store: Store)
    requires Collected(c) && emitted == c.emitted + [event] && store == EventEffect(c.ns, c.store, event)
    ensures Collected(Collection(c.ns, emitted, store))
  {
    EventsEffectConcat(c.ns, map[], c.emitted, [event]);
    assert [event][1..] == [];
    assert EventsEffect(c.ns, c.store, [event]) == EventEffect(c.ns, c.store, event);
  }

  /** Perform a mutation and queue what it reports. */
  method Mutate(store: ControlStore, events: EventSystem, op: Mutation)
    requires events.Valid() && store.namespace == events.namespace && ValidMutation(events.lim, events.width, store.namespace, op)
    requires Told(events.lim, events.width, History(store.namespace, events.log, store.View()))
    modifies store, events`opQueue, events`log, events.subscribers
    ensures events.Valid()
    ensures Told(events.lim, events.width, History(store.namespace, events.log, store.View()))
    ensures forall c | c in events.subscribers :: c.seen == old(c.seen)
  {
    var reported := Report(store, op, events.lim, events.width, events.log);
    EnqueueAll(events, reported);
  }

  method Report(store: ControlStore, op: Mutation, ghost lim: Limits, ghost width: nat, ghost log: seq<QueuedOp>)
      returns (reported: seq<QueuedOp>)
    requires ValidMutation(lim, width, store.namespace, op)
    requires Told(lim, width, History(store.namespace, log, store.View()))
    modifies store
    ensures Told(lim, width, History(store.namespace, log + reported, store.View()))
    ensures forall i | 0 <= i < |reported| :: OpOf(lim, width, store.namespace, reported[i])
  {
    ghost var h := History(store.namespace, log, store.View());
    ToldValid(lim, width, h);
    reported := Perform(store, op, lim, width);
    FittingOpsValid(lim, width, h.ns, h.store, reported);
    TellMore(lim, width, h, reported, store.View());
  }

  /** Let the subscriber catch up by one event; `false` means that it waits for more. */
  method CatchUp(subscriber: Subscriber, collected: ControlStore) returns (more: bool)
    requires subscriber.Valid() && subscriber.events.namespace == collected.namespace
    requires Collected(Collection(collected.namespace, subscriber.emitted, collected.View()))
    modifies subscriber`bufferedEvent, subscriber`emitted, subscriber.cursor, collected
    ensures subscriber.Valid() && subscriber.cursor.lost == old(subscriber.cursor.lost)
    ensures Collected(Collection(collected.namespace, subscriber.emitted, collected.View()))
    ensures more ==> subscriber.Outstanding() < old(subscriber.Outstanding())
    ensures !more ==> subscriber.cursor.nextOpId.None? && subscriber.emitted == AllEvents(subscriber.sub, subscriber.cursor.seen)
  {
    ghost var before := Collection(collected.namespace, subscriber.emitted, collected.View());
    var r := subscriber.Produce();
    if !r.Event? {
      assert subscriber.emitted == before.emitted;
      return false;
    }
    Collect(collected, r.event);
    CollectMore(before, r.event, subscriber.emitted, collected.View());
    return true;
  }

  /** Once the subscriber waits and lost nothing, the collected store is the subscribed part of the store. */
  lemma Rebuilt(sub: Subscription, ns: NamespaceId, log: seq<QueuedOp>, kept: nat, at: Position,
                store: Store, emitted: seq<StoreEvent>, collected: Store)
    requires !sub.ignore.ignoreIncompletePayloads
    requires Told(sub.lim, sub.width, History(ns, log, store)) && Collected(Collection(ns, emitted, collected))
    requires PositionOk(log, kept, at) && at.start == 0 && at.next.None? && at.lost == 0 && emitted == AllEvents(sub, at.seen)
    ensures collected == Subscribed(sub, store)
  {
    SawEverythingIff(log, kept, at);
    assert at.seen == log[0..] == log;
    AllReplay(sub, map[], log);
    ReplayRebuilds(sub, ns, map[], log);
    assert Subscribed(sub, map[]) == map[];
  }

  /** Every part of the loop in a valid state, and the two stores explained by log and events. */
  ghost predicate Running(store: ControlStore, subscriber: Subscriber, collected: ControlStore)
    reads store, collected, subscriber, subscriber.events, subscriber.events.subscribers, subscriber.cursor
  {
    && subscriber.Valid() && store != collected
    && subscriber.events.namespace == store.namespace == collected.namespace
    && Told(subscriber.sub.lim, subscriber.sub.width, History(store.namespace, subscriber.events.log, store.View()))
    && Collected(Collection(collected.namespace, subscriber.emitted, collected.View()))
  }

  /** Some mutations, each followed by some turns of the subscriber, and finally all remaining events. */
  method CheckStoreEvents(store: ControlStore, subscriber: Subscriber, collected: ControlStore,
                          ops: seq<Mutation>, turns: seq<nat>)
    requires Running(store, subscriber, collected) && subscriber.cursor.start == 0
    requires |turns| == |ops| && !subscriber.sub.ignore.ignoreIncompletePayloads
    requires ValidMutations(subscriber.sub.lim, subscriber.sub.width, store.namespace, ops)
    modifies store, collected, subscriber, subscriber.events, subscriber.events.subscribers
    ensures Running(store, subscriber, collected)
    ensures subscriber.cursor.lost == 0 ==> collected.View() == Subscribed(subscriber.sub, store.View())
    ensures |subscriber.events.log| <= subscriber.events.maxQueueCapacity ==> subscriber.cursor.lost == 0
  {
    for i := 0 to |ops|
      invariant Running(store, subscriber, collected)
      invariant subscriber.events.subscribers == old(subscriber.events.subscribers)
    {
      Turn(store, subscriber, collected, ops[i], turns[i]);
    }
    Drain(store, subscriber, collected);
    ghost var events, at := subscriber.events, subscriber.cursor.At();
    assert PositionOk(events.log, |events.opQueue|, at);
    if at.lost == 0 {
      Rebuilt(subscriber.sub, store.namespace, events.log, |events.opQueue|, at,
        store.View(), subscriber.emitted, collected.View());
    }
  }

  /** The subscription is the one made for an area whose range is exact. */
  ghost predicate SubscribesExactly(sub: Subscription, area: Area) {
    match area
    case Area(_, _, _) =>
      && ValidArea(sub.lim, sub.width, area) && sub == AreaSubscription(sub.lim, sub.width, area, sub.ignore)
      && AreaRangeExact(sub.lim, area)
  }

  /** A store is what another one holds of an area, without what is to be ignored. */
  ghost predicate IsAreaPart(c: Store, m: Store, area: Area, ignore: QueryIgnoreParams) {
    match area
    case Area(_, _, _) => c == AreaPart(m, area, ignore)
  }

  lemma ExactPart(sub: Subscription, h: History, area: Area)
    requires Told(sub.lim, sub.width, h)
    ensures SubscribesExactly(sub, area) ==> IsAreaPart(Subscribed(sub, h.store), h.store, area, sub.ignore)
  {
    ToldValid(sub.lim, sub.width, h);
    if SubscribesExactly(sub, area) { ExactSubscription(sub.lim, sub.width, area, sub.ignore, h.store); }
  }

  /** The same loop up to the final comparison: the entries of an area that are not ignored against all
      that was collected. It succeeds precisely if the collected store is that part of the store, and
      always if nothing was lost and the range of the area is exact. */
  method CheckAreaEvents(store: ControlStore, subscriber: Subscriber, collected: ControlStore,
                         ops: seq<Mutation>, turns: seq<nat>, area: Area)
      returns (equal: bool)
    requires Running(store, subscriber, collected) && subscriber.cursor.start == 0
    requires |turns| == |ops| && !subscriber.sub.ignore.ignoreIncompletePayloads
    requires ValidMutations(subscriber.sub.lim, subscriber.sub.width, store.namespace, ops)
    modifies store, collected, subscriber, subscriber.events, subscriber.events.subscribers
    ensures equal <==> IsAreaPart(collected.View(), store.View(), area, subscriber.sub.ignore)
    ensures subscriber.cursor.lost == 0 ==> collected.View() == Subscribed(subscriber.sub, store.View())
    ensures subscriber.cursor.lost == 0 && SubscribesExactly(subscriber.sub, area) ==> equal
    ensures |subscriber.events.log| <= subscriber.events.maxQueueCapacity ==> subscriber.cursor.lost == 0
  {
    CheckStoreEvents(store, subscriber, collected, ops, turns);
    equal := FinalComparison(store, collected, area, subscriber.sub, subscriber.events.log);
  }

  method FinalComparison(store: ControlStore, collected: ControlStore, area: Area, sub: Subscription, ghost log: seq<QueuedOp>)
      returns (equal: bool)
    requires store != collected && store.namespace == collected.namespace
    requires Told(sub.lim, sub.width, History(store.namespace, log, store.View()))
    modifies store`subspaces, collected`subspaces
    ensures store.View() == old(store.View()) && collected.View() == old(collected.View())
    ensures equal <==> IsAreaPart(collected.View(), store.View(), area, sub.ignore)
    ensures collected.View() == Subscribed(sub, store.View()) && SubscribesExactly(sub, area) ==> equal
  {
    ExactPart(sub, History(store.namespace, log, store.View()), area);
    equal := CompareArea(store, collected, area, sub.ignore);
  }

  /** The whole check from nothing: two empty stores, a queue, and a subscription to an area. It succeeds
      if the range of the area is exact and the queue holds all operations that the mutations report. */
  method CheckFromNothing(lim: Limits, width: nat, namespace: NamespaceId, maxQueueCapacity: nat, area: Area, ignore: QueryIgnoreParams,
                          ops: seq<Mutation>, turns: seq<nat>)
      returns (equal: bool, store: ControlStore, collected: ControlStore, subscriber: Subscriber)
    requires 0 < maxQueueCapacity && ValidArea(lim, width, area) && !ignore.ignoreIncompletePayloads
    requires |turns| == |ops| && ValidMutations(lim, width, namespace, ops)
    ensures subscriber.sub == AreaSubscription(lim, width, area, ignore)
    ensures equal <==> IsAreaPart(collected.View(), store.View(), area, ignore)
    ensures subscriber.cursor.lost == 0 && AreaRangeExact(lim, area) ==> equal
    ensures |subscriber.events.log| <= maxQueueCapacity && AreaRangeExact(lim, area) ==> equal
  {
    store, collected, subscriber := Begin(lim, width, namespace, maxQueueCapacity, area, ignore);
    SubscribedForArea(lim, width, area, ignore);
    equal := CheckAreaEvents(store, subscriber, collected, ops, turns, area);
  }

  lemma SubscribedForArea(lim: Limits, width: nat, area: Area, ignore: QueryIgnoreParams)
    requires ValidArea(lim, width, area)
    ensures var sub := AreaSubscription(lim, width, area, ignore);
      (SubscribesExactly(sub, area) <==> AreaRangeExact(lim, area)) && sub.lim == lim && sub.width == width && sub.ignore == ignore
  {}

  method Begin(lim: Limits, width: nat, namespace: NamespaceId, maxQueueCapacity: nat, area: Area, ignore: QueryIgnoreParams)
      returns (store: ControlStore, collected: ControlStore, subscriber: Subscriber)
    requires 0 < maxQueueCapacity && ValidArea(lim, width, area)
    ensures Running(store, subscriber, collected) && subscriber.cursor.start == 0
    ensures fresh(store) && fresh(collected) && fresh(subscriber) && fresh(subscriber.events) && fresh(subscriber.events.subscribers)
    ensures store.namespace == namespace && store.View() == map[] && collected.View() == map[]
    ensures subscriber.sub == AreaSubscription(lim, width, area, ignore) && subscriber.events.maxQueueCapacity == maxQueueCapacity
  {
    store := new ControlStore(namespace);
    collected := new ControlStore(namespace);
    var events := new EventSystem(lim, width, maxQueueCapacity, namespace);
    subscriber := AddSubscription(events, RangeFromArea(lim, width, area), ignore);
  }

  /** The entries of an area in one store against all entries of another. */
  method CompareArea(store: ControlStore, collected: ControlStore, area: Area, ignore: QueryIgnoreParams) returns (equal: bool)
    requires store != collected && store.namespace == collected.namespace
    modifies store`subspaces, collected`subspaces
    ensures store.View() == old(store.View()) && collected.View() == old(collected.View())
    ensures equal <==> IsAreaPart(collected.View(), store.View(), area, ignore)
  {
    ghost var m, c := store.View(), collected.View();
    var items1, order1 := store.QueryArea(area, ignore);
    var items2, order2 := collected.QueryArea(FULL_AREA, DEFAULT_IGNORE);
    equal := Members(items1) == Members(items2);
    EverythingAnswers(store.namespace, m, AreaHits(m, area, ignore), order1, items1, c, order2, items2);
  }

  lemma EverythingAnswers(ns: NamespaceId, m: Store, ks: set<Key>, order: seq<Key>, items: seq<LengthyEntry>,
                          c: Store, order': seq<Key>, items': seq<LengthyEntry>)
    requires Answers(ns, m, ks, order, items) && Answers(ns, c, AreaHits(c, FULL_AREA, DEFAULT_IGNORE), order', items')
    ensures Members(items) == Members(items') <==> c == Part(m, ks)
  {
    var all := AreaHits(c, FULL_AREA, DEFAULT_IGNORE);
    AnswersDescribe(ns, m, ks, order, items, c, all, order', items');
    assert Part(c, all) == c;
  }

  method Turn(store: ControlStore, subscriber: Subscriber, collected: ControlStore, op: Mutation, turns: nat)
    requires Running(store, subscriber, collected)
    requires ValidMutation(subscriber.sub.lim, subscriber.sub.width, store.namespace, op)
    modifies store, collected, subscriber`bufferedEvent, subscriber`emitted
    modifies subscriber.events`opQueue, subscriber.events`log, subscriber.events.subscribers
    ensures Running(store, subscriber, collected)
  {
    MutateRunning(store, subscriber, collected, op);
    CatchUpBy(store, subscriber, collected, turns);
  }

  method MutateRunning(store: ControlStore, subscriber: Subscriber, collected: ControlStore, op: Mutation)
    requires Running(store, subscriber, collected)
    requires ValidMutation(subscriber.sub.lim, subscriber.sub.width, store.namespace, op)
    modifies store, subscriber.events`opQueue, subscriber.events`log, subscriber.events.subscribers
    ensures Running(store, subscriber, collected)
  {
    ghost var was, view := subscriber.Status(), collected.View();
    Mutate(store, subscriber.events, op);
    assert subscriber.Status() == was && collected.View() == view;
  }

  method CatchUpBy(store: ControlStore, subscriber: Subscriber, collected: ControlStore, turns: nat)
    requires Running(store, subscriber, collected)
    modifies subscriber`bufferedEvent, subscriber`emitted, subscriber.cursor, collected
    ensures Running(store, subscriber, collected)
  {
    var more, turn := true, 0;
    while more && turn < turns
      invariant Running(store, subscriber, collected)
      decreases turns - turn
    {
      more := CatchUpRunning(store, subscriber, collected);
      turn := turn + 1;
    }
  }

  /** Events until the subscriber waits. */
  method Drain(store: ControlStore, subscriber: Subscriber, collected: ControlStore)
    requires Running(store, subscriber, collected)
    modifies subscriber`bufferedEvent, subscriber`emitted, subscriber.cursor, collected
    ensures Running(store, subscriber, collected)
    ensures subscriber.cursor.nextOpId.None? && subscriber.emitted == AllEvents(subscriber.sub, subscriber.cursor.seen)
  {
    var more := true;
    while more
      invariant Running(store, subscriber, collected)
      invariant !more ==> subscriber.cursor.nextOpId.None? && subscriber.emitted == AllEvents(subscriber.sub, subscriber.cursor.seen)
      decreases more, subscriber.Outstanding()
    {
      more := CatchUpRunning(store, subscriber, collected);
    }
  }

  method CatchUpRunning(store: ControlStore, subscriber: Subscriber, collected: ControlStore) returns (more: bool)
    requires Running(store, subscriber, collected)
    modifies subscriber`bufferedEvent, subscriber`emitted, subscriber.cursor, collected
    ensures Running(store, subscriber, collected)
    ensures more ==> subscriber.Outstanding() < old(subscriber.Outstanding())
    ensures !more ==> subscriber.cursor.nextOpId.None? && subscriber.emitted == AllEvents(subscriber.sub, subscriber.cursor.seen)
  {
    more := CatchUp(subscriber, collected);
  }
}
