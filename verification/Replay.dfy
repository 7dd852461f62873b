/** Replaying the events of a subscription rebuilds the subscribed part of the store. */
module Replay {
  import opened Wrappers
  import opened ByteStrings
  import opened Paths
  import opened Grouping
  import opened Entries
  import opened StoreEvents

  // ---------------------------------------------------------------- logs and the states they lead to

  /** What a queued operation did to the store. */
  function OpEffect(m: Store, op: QueuedOp): Store {
    match op
    case Insertion(a, _) => Prune(m, a.entry)[KeyOf(a.entry) := FreshRecord(a)]
    case EntryForgotten(a, _) => m - {KeyOf(a.entry)}
    case AreaForgotten(area, protected) => m - Forgotten(m, area, protected)
    case Appended(a, previous, now) => if KeyOf(a.entry) in m then m[KeyOf(a.entry) := m[KeyOf(a.entry)].(available := now)] else m
    case PayloadForgotten(a, _) => WithoutPayloads(m, {KeyOf(a.entry)})
    case AreaPayloadsForgotten(area, protected) => WithoutPayloads(m, Forgotten(m, area, protected))
  }

  predicate SubspaceCovers(width: nat, p: AreaSubspace, a: AreaSubspace) {
    p.Any? || p == a || (a.Any? && width == 0)
  }

  predicate SubspacesShare(a: AreaSubspace, b: AreaSubspace) {
    a.Any? || b.Any? || a == b
  }

  /** The protected area holds all that area `a` holds strictly below its own path. */
  predicate ShieldsBelow(lim: Limits, width: nat, p: Area, a: Area) {
    && SubspaceCovers(width, p.subspace, a.subspace) && TimesIncludeRange(p.times, a.times)
    && (p.path <= a.path || (p.path == a.path + [[]] && (lim.mcl == 0 || PathLength(a.path) == lim.mpl)))
  }

  /** The range made of the protected area holds something of area `a` that the protected area does not. */
  predicate ReachesPast(lim: Limits, p: Area, a: Area)
    requires ValidPath(lim, p.path)
  {
    && SuccessorCarries(lim, p.path) && SubspacesShare(p.subspace, a.subspace) && TimeRangesMeet(p.times, a.times)
    && match SuccessorOf(lim, p.path)
       case None => false
       case Some(next) =>
         || (a.path <= p.path && |a.path| < |next|)
         || (PathLess(p.path, a.path) && PathLess(a.path, next))
  }

  /** The areas and protected areas whose ranges are good enough for reports of the area alone. */
  predicate ReportSuffices(lim: Limits, width: nat, area: Area, protected: Option<Area>)
    requires protected.Some? ==> ValidPath(lim, protected.value.path)
  {
    TimesEmpty(area.times) ||
    match protected
    case None => |area.path| == lim.mcc
    case Some(p) => (|area.path| == lim.mcc || ShieldsBelow(lim, width, p, area)) && !ReachesPast(lim, p, area)
  }

  predicate NamesRecord(ns: NamespaceId, m: Store, a: AuthorisedEntry) {
    KeyOf(a.entry) in m && a == Restore(ns, KeyOf(a.entry), m[KeyOf(a.entry)])
  }

  /** The situations in which a store queues an operation: it names a record as it is, payloads grow from
      what is there, and an area is reported after its entries, or the ranges that stand for the areas must
      be good enough. */
  predicate OpFits(lim: Limits, width: nat, ns: NamespaceId, m: Store, op: QueuedOp) {
    ValidOp(lim, width, op) &&
    match op
    case Insertion(a, _) => a.entry.namespaceId == ns && Blockers(m, a.entry) == {}
    case EntryForgotten(a, available) => NamesRecord(ns, m, a) && available == m[KeyOf(a.entry)].available
    case AreaForgotten(area, protected) =>
      || Forgotten(m, area, protected) == {}
      || ReportSuffices(lim, width, area, protected)
    case Appended(a, previous, now) =>
      NamesRecord(ns, m, a) && previous == m[KeyOf(a.entry)].available && previous < now <= a.entry.payloadLength
    case PayloadForgotten(a, _) => NamesRecord(ns, m, a)
    case AreaPayloadsForgotten(area, protected) =>
      || (forall k | k in Forgotten(m, area, protected) :: m[k].available == 0)
      || ReportSuffices(lim, width, area, protected)
  }

  function LogEffect(m: Store, log: seq<QueuedOp>): Store
    decreases |log|
  {
    if log == [] then m else LogEffect(OpEffect(m, log[0]), log[1..])
  }

  predicate LogFits(lim: Limits, width: nat, ns: NamespaceId, m: Store, log: seq<QueuedOp>)
    decreases |log|
  {
    log == [] || (OpFits(lim, width, ns, m, log[0]) && LogFits(lim, width, ns, OpEffect(m, log[0]), log[1..]))
  }

  lemma {:induction false} LogEffectConcat(m: Store, a: seq<QueuedOp>, b: seq<QueuedOp>)
    ensures LogEffect(m, a + b) == LogEffect(LogEffect(m, a), b)
    decreases |a|
  {
    if a == [] {
      assert a + b == b;
    } else {
      assert (a + b)[1..] == a[1..] + b;
      LogEffectConcat(OpEffect(m, a[0]), a[1..], b);
    }
  }

  lemma {:induction false} LogFitsConcat(lim: Limits, width: nat, ns: NamespaceId, m: Store, a: seq<QueuedOp>, b: seq<QueuedOp>)
    ensures LogFits(lim, width, ns, m, a + b) <==>
      LogFits(lim, width, ns, m, a) && LogFits(lim, width, ns, LogEffect(m, a), b)
    decreases |a|
  {
    if a == [] {
      assert a + b == b;
    } else {
      assert (a + b)[1..] == a[1..] + b;
      LogFitsConcat(lim, width, ns, OpEffect(m, a[0]), a[1..], b);
    }
  }

  // ---------------------------------------------------------------- the collected store

  /** One turn of the loop that collects events into a store of its own. As many bytes are appended as
      the event says that the payload grew by. */
  ghost function EventEffect(ns: NamespaceId, c: Store, event: StoreEvent): Store {
    match event
    case IngestedEvent(a, _) => Ingest(ns, c, a, false).0
    case EntryForgottenEvent(a) => ForgetEntry(c, KeyOf(a.entry), None).0
    case AreaForgottenEvent(area, protected) => ForgetArea(c, area, protected).0
    case PruneAlertEvent(a) => Prune(c, a.entry)
    case AppendedEvent(a, previous, now) => if previous <= now then Grown(c, KeyOf(a.entry), now - previous) else c
    case PayloadForgottenEvent(a) => WithoutPayloads(c, {KeyOf(a.entry)})
    case AreaPayloadsForgottenEvent(area, protected) => WithoutPayloads(c, Forgotten(c, area, protected))
  }

  ghost function EventsEffect(ns: NamespaceId, c: Store, events: seq<StoreEvent>): Store
    decreases |events|
  {
    if events == [] then c else EventsEffect(ns, EventEffect(ns, c, events[0]), events[1..])
  }

  lemma {:induction false} EventsEffectConcat(ns: NamespaceId, c: Store, a: seq<StoreEvent>, b: seq<StoreEvent>)
    ensures EventsEffect(ns, c, a + b) == EventsEffect(ns, EventsEffect(ns, c, a), b)
    decreases |a|
  {
    if a == [] {
      assert a + b == b;
    } else {
      assert (a + b)[1..] == a[1..] + b;
      EventsEffectConcat(ns, EventEffect(ns, c, a[0]), a[1..], b);
    }
  }

  /** The events a subscription makes of a log of well-typed operations. */
  function AllEvents(sub: Subscription, log: seq<QueuedOp>): seq<StoreEvent> {
    if log == [] then []
    else (if ValidOp(sub.lim, sub.width, log[0]) then EventsOf(sub, log[0]) else []) + AllEvents(sub, log[1..])
  }

  lemma {:induction false} AllEventsConcat(sub: Subscription, a: seq<QueuedOp>, b: seq<QueuedOp>)
    ensures AllEvents(sub, a + b) == AllEvents(sub, a) + AllEvents(sub, b)
  {
    if a == [] {
      assert a + b == b;
    } else {
      assert (a + b)[1..] == a[1..] + b;
      AllEventsConcat(sub, a[1..], b);
    }
  }

  /** The part of a store that a subscription is about. */
  predicate Wanted(sub: Subscription, k: Key, r: Record) {
    && RangeIncludes(sub.range, k.subspace, k.path, r.timestamp)
    && !(sub.ignore.ignoreEmptyPayloads && r.payloadLength == 0)
    && !(sub.ignore.ignoreIncompletePayloads && r.available != r.payloadLength)
  }

  function Subscribed(sub: Subscription, m: Store): Store {
    map k | k in m && Wanted(sub, k, m[k]) :: m[k]
  }

  // ---------------------------------------------------------------- one operation

  /** Removing the same records from the store and from its subscribed part. */
  lemma SubscribedMinus(sub: Subscription, m: Store, gone: set<Key>, gone': set<Key>)
    requires forall k | k in m && Wanted(sub, k, m[k]) :: k in gone <==> k in gone'
    ensures Subscribed(sub, m) - gone' == Subscribed(sub, m - gone)
  {}

  lemma SubscribedPlus(sub: Subscription, m: Store, k: Key, r: Record)
    requires k !in m
    ensures Subscribed(sub, m[k := r]) == if Wanted(sub, k, r) then Subscribed(sub, m)[k := r] else Subscribed(sub, m)
  {}

  lemma PruneSubscribed(sub: Subscription, m: Store, e: Entry)
    ensures Prune(Subscribed(sub, m), e) == Subscribed(sub, Prune(m, e))
  {
    SubscribedMinus(sub, m, Prunable(m, e), Prunable(Subscribed(sub, m), e));
  }

  /** What is not alerted about prunes nothing that is subscribed to. */
  lemma UnalertedPrunesNothing(sub: Subscription, m: Store, e: Entry)
    requires !CouldPruneIn(sub.range, e.subspace, e.path, e.timestamp)
    ensures Prune(Subscribed(sub, m), e) == Subscribed(sub, m)
  {
    var c := Subscribed(sub, m);
    forall k | k in c ensures k !in Prunable(c, e) {
      if k in Prunable(c, e) {
        CouldPruneSound(sub.range, e.subspace, e.path, e.timestamp, k.path, c[k].timestamp);
      }
    }
  }

  lemma IngestUnblocked(ns: NamespaceId, c: Store, a: AuthorisedEntry)
    requires Blockers(c, a.entry) == {}
    ensures Ingest(ns, c, a, false) == (Prune(c, a.entry)[KeyOf(a.entry) := FreshRecord(a)], Success)
  {}

  lemma PruneTwice(m: Store, e: Entry)
    ensures Prune(Prune(m, e), e) == Prune(m, e)
  {
    assert Prunable(Prune(m, e), e) == {};
  }

  lemma FewerBlockers(sub: Subscription, m: Store, e: Entry)
    requires Blockers(m, e) == {}
    ensures Blockers(Prune(Subscribed(sub, m), e), e) == {}
  {
    forall k | k in Prune(Subscribed(sub, m), e) ensures !Blocks(k, m[k], e) {
      assert k !in Blockers(m, e);
    }
  }

  lemma TwoEvents(ns: NamespaceId, c: Store, x: StoreEvent, y: StoreEvent)
    ensures EventsEffect(ns, c, [x, y]) == EventEffect(ns, EventEffect(ns, c, x), y)
  {
    var events, c' := [x, y], EventEffect(ns, c, x);
    assert events[1..] == [y];
    assert EventsEffect(ns, c', [y]) == EventsEffect(ns, EventEffect(ns, c', y), [y][1..]);
  }

  lemma ReplayInsertion(sub: Subscription, ns: NamespaceId, m: Store, a: AuthorisedEntry, origin: EntryOrigin)
    requires OpFits(sub.lim, sub.width, ns, m, Insertion(a, origin))
    ensures EventsEffect(ns, Subscribed(sub, m), EventsOf(sub, Insertion(a, origin)))
      == Subscribed(sub, OpEffect(m, Insertion(a, origin)))
  {
    var e, c := a.entry, Subscribed(sub, m);
    var pruned := Prune(m, e);
    var events := EventsOf(sub, Insertion(a, origin));
    PruneSubscribed(sub, m, e);
    PruneMakesRoom(m, e);
    SubscribedPlus(sub, pruned, KeyOf(e), FreshRecord(a));
    if Wanted(sub, KeyOf(e), FreshRecord(a)) {
      assert events == [PruneAlertEvent(a), IngestedEvent(a, origin)];
      FewerBlockers(sub, m, e);
      IngestUnblocked(ns, Prune(c, e), a);
      PruneTwice(c, e);
      TwoEvents(ns, c, PruneAlertEvent(a), IngestedEvent(a, origin));
    } else if CouldPruneIn(sub.range, e.subspace, e.path, e.timestamp) || Covered(sub, e) {
      assert events == [PruneAlertEvent(a)] && events[1..] == [];
    } else {
      assert events == [];
      UnalertedPrunesNothing(sub, m, e);
    }
  }

  lemma ReplayEntryForgotten(sub: Subscription, ns: NamespaceId, m: Store, a: AuthorisedEntry, available: nat)
    requires OpFits(sub.lim, sub.width, ns, m, EntryForgotten(a, available))
    ensures EventsEffect(ns, Subscribed(sub, m), EventsOf(sub, EntryForgotten(a, available)))
      == Subscribed(sub, OpEffect(m, EntryForgotten(a, available)))
  {
    var k, c := KeyOf(a.entry), Subscribed(sub, m);
    var events := EventsOf(sub, EntryForgotten(a, available));
    if Wanted(sub, k, m[k]) {
      assert events == [EntryForgottenEvent(a)] && events[1..] == [];
      SubscribedMinus(sub, m, {k}, {k});
    } else {
      assert events == [];
      SubscribedMinus(sub, m, {k}, {});
      assert c - {} == c;
    }
  }

  // ---------------------------------------------------------------- operations on payloads

  /** A record that a subscription is about, and that has a payload of which all is there if that matters. */
  predicate WantedPayload(sub: Subscription, k: Key, r: Record) {
    Wanted(sub, k, r) && r.payloadLength > 0
  }

  /** Ingesting an entry once more would neither be refused nor prune, among what is subscribed to. */
  predicate Undisturbed(sub: Subscription, m: Store, e: Entry) {
    forall k | k in m && Wanted(sub, k, m[k]) && k != KeyOf(e) :: !Blocks(k, m[k], e) && !Replaces(e, k, m[k])
  }

  /** The operations whose events carry a collected store across. With incomplete payloads ignored, a payload
      must be completed all at once, by an entry that disturbs no other one, and must not be forgotten. */
  predicate Replayable(sub: Subscription, m: Store, op: QueuedOp) {
    !sub.ignore.ignoreIncompletePayloads ||
    match op
    case Appended(a, previous, now) =>
      Covered(sub, a.entry) && now == a.entry.payloadLength ==> previous == 0 && Undisturbed(sub, m, a.entry)
    case PayloadForgotten(a, _) => !(KeyOf(a.entry) in m && WantedPayload(sub, KeyOf(a.entry), m[KeyOf(a.entry)]))
    case AreaPayloadsForgotten(area, protected) => forall k | k in Forgotten(m, area, protected) :: !WantedPayload(sub, k, m[k])
    case Insertion(_, _) => true
    case EntryForgotten(_, _) => true
    case AreaForgotten(_, _) => true
  }

  ghost predicate Replays(sub: Subscription, ns: NamespaceId, m: Store, op: QueuedOp)
    requires ValidOp(sub.lim, sub.width, op)
  {
    EventsEffect(ns, Subscribed(sub, m), EventsOf(sub, op)) == Subscribed(sub, OpEffect(m, op))
  }

  lemma OneEvent(ns: NamespaceId, c: Store, x: StoreEvent)
    ensures EventsEffect(ns, c, [x]) == EventEffect(ns, c, x)
  {
    assert [x][1..] == [];
  }

  lemma SubscribedUpdate(sub: Subscription, m: Store, k: Key, r: Record)
    requires k in m
    ensures Subscribed(sub, m[k := r]) == if Wanted(sub, k, r) then Subscribed(sub, m)[k := r] else Subscribed(sub, m) - {k}
  {}

  /** Where incomplete payloads count, a growing payload is reported as far as it grows. */
  lemma ReplayAppended(sub: Subscription, ns: NamespaceId, m: Store, a: AuthorisedEntry, previous: nat, now: nat)
    requires !sub.ignore.ignoreIncompletePayloads
    requires ValidStore(sub.lim, sub.width, m) && OpFits(sub.lim, sub.width, ns, m, Appended(a, previous, now))
    ensures Replays(sub, ns, m, Appended(a, previous, now))
  {
    var k := KeyOf(a.entry);
    var r := m[k].(available := now);
    SubscribedUpdate(sub, m, k, r);
    if Wanted(sub, k, m[k]) {
      assert EventsOf(sub, Appended(a, previous, now)) == [AppendedEvent(a, previous, now)];
      OneEvent(ns, Subscribed(sub, m), AppendedEvent(a, previous, now));
    } else {
      assert EventsOf(sub, Appended(a, previous, now)) == [];
      assert Subscribed(sub, m) - {k} == Subscribed(sub, m);
    }
  }

  /** Where they do not, the entry is ingested when its payload is complete, and then appended to. */
  lemma ReplayCompleted(sub: Subscription, ns: NamespaceId, m: Store, a: AuthorisedEntry, previous: nat, now: nat)
    requires sub.ignore.ignoreIncompletePayloads
    requires ValidStore(sub.lim, sub.width, m) && OpFits(sub.lim, sub.width, ns, m, Appended(a, previous, now))
    ensures Replays(sub, ns, m, Appended(a, previous, now)) <==> Replayable(sub, m, Appended(a, previous, now))
  {
    var op, k, c := Appended(a, previous, now), KeyOf(a.entry), Subscribed(sub, m);
    var r := m[k].(available := now);
    SubscribedUpdate(sub, m, k, r);
    assert k !in c;
    if Covered(sub, a.entry) && now == a.entry.payloadLength {
      LateEvents(sub, ns, c, a, previous, now);
      IngestedLate(sub, ns, m, a, previous, now);
    } else {
      assert EventsOf(sub, op) == [];
      assert c - {k} == c;
    }
  }

  lemma LateEvents(sub: Subscription, ns: NamespaceId, c: Store, a: AuthorisedEntry, previous: nat, now: nat)
    requires sub.ignore.ignoreIncompletePayloads && Covered(sub, a.entry) && now == a.entry.payloadLength && previous < now
    requires ValidOp(sub.lim, sub.width, Appended(a, previous, now))
    ensures EventsEffect(ns, c, EventsOf(sub, Appended(a, previous, now)))
      == Grown(Ingest(ns, c, a, false).0, KeyOf(a.entry), now - previous)
  {
    assert EventsOf(sub, Appended(a, previous, now)) == [IngestedEvent(a, Local), AppendedEvent(a, previous, now)];
    TwoEvents(ns, c, IngestedEvent(a, Local), AppendedEvent(a, previous, now));
  }

  lemma IngestedLate(sub: Subscription, ns: NamespaceId, m: Store, a: AuthorisedEntry, previous: nat, now: nat)
    requires sub.ignore.ignoreIncompletePayloads && Covered(sub, a.entry) && now == a.entry.payloadLength
    requires ValidStore(sub.lim, sub.width, m) && OpFits(sub.lim, sub.width, ns, m, Appended(a, previous, now))
    ensures var c, k := Subscribed(sub, m), KeyOf(a.entry);
      Grown(Ingest(ns, c, a, false).0, k, now - previous) == c[k := m[k].(available := now)] <==>
        previous == 0 && Undisturbed(sub, m, a.entry)
  {
    var c, k := Subscribed(sub, m), KeyOf(a.entry);
    assert k !in c;
    if Undisturbed(sub, m, a.entry) {
      IngestedUndisturbed(sub, ns, m, a);
      assert Grown(c[k := FreshRecord(a)], k, now - previous)[k].available == now - previous;
    } else {
      IngestedDisturbed(sub, ns, m, a, now - previous, m[k].(available := now));
    }
  }

  lemma IngestedUndisturbed(sub: Subscription, ns: NamespaceId, m: Store, a: AuthorisedEntry)
    requires Undisturbed(sub, m, a.entry) && KeyOf(a.entry) !in Subscribed(sub, m)
    ensures Ingest(ns, Subscribed(sub, m), a, false).0 == Subscribed(sub, m)[KeyOf(a.entry) := FreshRecord(a)]
  {
    var c := Subscribed(sub, m);
    assert Blockers(c, a.entry) == {} && Prunable(c, a.entry) == {};
  }

  lemma IngestedDisturbed(sub: Subscription, ns: NamespaceId, m: Store, a: AuthorisedEntry, more: nat, r: Record)
    requires !Undisturbed(sub, m, a.entry) && KeyOf(a.entry) !in Subscribed(sub, m)
    ensures Grown(Ingest(ns, Subscribed(sub, m), a, false).0, KeyOf(a.entry), more) != Subscribed(sub, m)[KeyOf(a.entry) := r]
  {
    var c, k := Subscribed(sub, m), KeyOf(a.entry);
    var c' := Ingest(ns, c, a, false).0;
    var j :| j in m && Wanted(sub, j, m[j]) && j != k && (Blocks(j, m[j], a.entry) || Replaces(a.entry, j, m[j]));
    if Blockers(c, a.entry) != {} {
      assert c' == c && Grown(c', k, more) == c;
    } else {
      assert j !in Blockers(c, a.entry) && j in Prunable(c, a.entry);
      assert j !in Grown(c', k, more);
    }
  }

  lemma ReplayPayloadForgotten(sub: Subscription, ns: NamespaceId, m: Store, a: AuthorisedEntry, available: nat)
    requires ValidStore(sub.lim, sub.width, m) && OpFits(sub.lim, sub.width, ns, m, PayloadForgotten(a, available))
    ensures Replays(sub, ns, m, PayloadForgotten(a, available)) <==> Replayable(sub, m, PayloadForgotten(a, available))
  {
    var op, k, c := PayloadForgotten(a, available), KeyOf(a.entry), Subscribed(sub, m);
    var r := m[k].(available := 0);
    assert WithoutPayloads(m, {k}) == m[k := r];
    SubscribedUpdate(sub, m, k, r);
    assert k !in c ==> c - {k} == c && WithoutPayloads(c, {k}) == c;
    assert k in c ==> WithoutPayloads(c, {k}) == c[k := r];
    assert EventsOf(sub, op) == [PayloadForgottenEvent(a)] || EventsOf(sub, op) == [];
    OneEvent(ns, c, PayloadForgottenEvent(a));
  }

  /** Forgetting the payloads of some records, and of those among them that are subscribed to. */
  lemma SubscribedWithout(sub: Subscription, m: Store, ks: set<Key>, js: set<Key>)
    requires ValidStore(sub.lim, sub.width, m)
    requires forall k | k in m && Wanted(sub, k, m[k]) :: k in ks <==> k in js
    ensures (WithoutPayloads(Subscribed(sub, m), js) == Subscribed(sub, WithoutPayloads(m, ks))) <==>
      !sub.ignore.ignoreIncompletePayloads || forall k | k in ks && k in m :: !WantedPayload(sub, k, m[k])
  {
    var c, after := WithoutPayloads(Subscribed(sub, m), js), Subscribed(sub, WithoutPayloads(m, ks));
    if k :| sub.ignore.ignoreIncompletePayloads && k in ks && k in m && WantedPayload(sub, k, m[k]) {
      assert k in c && k !in after;
    } else {
      forall k | k in m ensures k in c <==> k in after { assert ValidRecord(sub.lim, sub.width, k, m[k]); }
      assert c == after;
    }
  }

  lemma ReplayAreaPayloadsForgotten(sub: Subscription, ns: NamespaceId, m: Store, area: Area, protected: Option<Area>)
    requires ValidStore(sub.lim, sub.width, m) && OpFits(sub.lim, sub.width, ns, m, AreaPayloadsForgotten(area, protected))
    ensures Replays(sub, ns, m, AreaPayloadsForgotten(area, protected)) <==> Replayable(sub, m, AreaPayloadsForgotten(area, protected))
  {
    var op, c := AreaPayloadsForgotten(area, protected), Subscribed(sub, m);
    var gone, gone' := Forgotten(m, area, protected), Forgotten(c, area, protected);
    if AreaTouches(sub, area, protected) {
      assert EventsOf(sub, op) == [AreaPayloadsForgottenEvent(area, protected)];
      OneEvent(ns, c, AreaPayloadsForgottenEvent(area, protected));
      SubscribedWithout(sub, m, gone, gone');
    } else {
      assert EventsOf(sub, op) == [];
      UntouchedPayloads(sub, ns, m, area, protected);
    }
  }

  /** Without an event, there is nothing to forget about among what is subscribed to. */
  lemma UntouchedPayloads(sub: Subscription, ns: NamespaceId, m: Store, area: Area, protected: Option<Area>)
    requires ValidStore(sub.lim, sub.width, m) && OpFits(sub.lim, sub.width, ns, m, AreaPayloadsForgotten(area, protected))
    requires !AreaTouches(sub, area, protected)
    ensures Subscribed(sub, m) == Subscribed(sub, WithoutPayloads(m, Forgotten(m, area, protected)))
      <==> Replayable(sub, m, AreaPayloadsForgotten(area, protected))
  {
    var gone := Forgotten(m, area, protected);
    NoneWithout(Subscribed(sub, m));
    if forall k | k in gone :: m[k].available == 0 {
      assert WithoutPayloads(m, gone) == m;
    } else {
      NothingGone(sub, ns, m, area, protected);
      SubscribedWithout(sub, m, gone, {});
    }
  }

  lemma NothingGone(sub: Subscription, ns: NamespaceId, m: Store, area: Area, protected: Option<Area>)
    requires ValidStore(sub.lim, sub.width, m) && OpFits(sub.lim, sub.width, ns, m, AreaPayloadsForgotten(area, protected))
    requires !AreaTouches(sub, area, protected) && ReportSuffices(sub.lim, sub.width, area, protected)
    ensures forall k | k in m && Wanted(sub, k, m[k]) :: k !in Forgotten(m, area, protected)
  {
    forall k | k in m && Wanted(sub, k, m[k]) ensures k !in Forgotten(m, area, protected) {
      if k in Forgotten(m, area, protected) {
        assert ValidRecord(sub.lim, sub.width, k, m[k]);
        UntouchedForgetsNothing(sub, m, area, protected, k);
      }
    }
  }

  /** An area without an event holds nothing that is subscribed to. */
  lemma UntouchedForgetsNothing(sub: Subscription, m: Store, area: Area, protected: Option<Area>, k: Key)
    requires ValidArea(sub.lim, sub.width, area) && (protected.Some? ==> ValidArea(sub.lim, sub.width, protected.value))
    requires ReportSuffices(sub.lim, sub.width, area, protected)
    requires ValidSubspace(sub.width, k.subspace) && ValidPath(sub.lim, k.path)
    requires k in m && Wanted(sub, k, m[k]) && k in Forgotten(m, area, protected)
    ensures AreaTouches(sub, area, protected)
  {
    var t, r := m[k].timestamp, RangeFromArea(sub.lim, sub.width, area);
    UnshieldedIsAtPath(sub.lim, sub.width, area, protected, k, t);
    SubspaceRangeMeaning(sub.lim, sub.width, area, k.subspace);
    SuccessorMeaning(sub.lim, area.path);
    assert RangeIncludes(r, k.subspace, k.path, t);
    CommonPointMeets(r, sub.range, k.subspace, k.path, t);
    if protected.Some? {
      var pr := RangeFromArea(sub.lim, sub.width, protected.value);
      if RangeIncludesRange(pr, sub.range) {
        LargerRangeIncludes(pr, sub.range, k.subspace, k.path, t);
        PastIsReached(sub.lim, sub.width, protected.value, area, k.subspace, k.path, t);
        assert false;
      }
    }
  }

  /** What such an area forgets lies at its path. */
  lemma UnshieldedIsAtPath(lim: Limits, width: nat, area: Area, protected: Option<Area>, k: Key, t: nat)
    requires ValidArea(lim, width, area) && (protected.Some? ==> ValidArea(lim, width, protected.value))
    requires ReportSuffices(lim, width, area, protected) && ValidSubspace(width, k.subspace) && ValidPath(lim, k.path)
    requires AreaIncludes(area, k.subspace, k.path, t)
    requires !(protected.Some? && AreaIncludes(protected.value, k.subspace, k.path, t))
    ensures k.path == area.path
  {
    if |area.path| < lim.mcc && k.path != area.path {
      var p := protected.value;
      BelowIsShielded(lim, width, p, area, k.subspace, k.path, t);
      assert false;
    }
  }

  lemma BelowIsShielded(lim: Limits, width: nat, p: Area, a: Area, s: SubspaceId, q: Path, t: nat)
    requires ShieldsBelow(lim, width, p, a) && ValidSubspace(width, s) && ValidPath(lim, q)
    requires AreaIncludes(a, s, q, t) && q != a.path && (p.subspace.Id? ==> |p.subspace.id| == width)
    ensures AreaIncludes(p, s, q, t)
  {
    if !(p.path <= a.path) {
      var n := |a.path|;
      PathLengthConcat(a.path, q[n..]);
      assert q == a.path + q[n..] && q[n..][0] == q[n];
      assert q[n] == [];
      assert q[..n + 1] == a.path + [[]];
    }
  }

  /** What the range made of an area holds beside the area lies past a carry. */
  lemma PastIsReached(lim: Limits, width: nat, p: Area, a: Area, s: SubspaceId, q: Path, t: nat)
    requires ValidArea(lim, width, p) && ValidArea(lim, width, a) && ValidSubspace(width, s) && ValidPath(lim, q)
    requires RangeIncludes(RangeFromArea(lim, width, p), s, q, t) && !AreaIncludes(p, s, q, t) && AreaIncludes(a, s, q, t)
    ensures ReachesPast(lim, p, a)
  {
    SubspaceRangeMeaning(lim, width, p, s);
    SuccessorMeaning(lim, p.path);
    if !SuccessorCarries(lim, p.path) { SingletonPathRange(lim, p.path, q); }
    var next := SuccessorOf(lim, p.path).value;
    assert PathLess(p.path, q) && PathLess(q, next);
    if a.path != q { PathLessPrefix(a.path, q); PathLessTransitive(a.path, q, next); }
    PathLessTotal(p.path, a.path);
    if !PathLess(p.path, a.path) {
      BetweenPrefixAndExtension(a.path, p.path, q);
      var i := CarryFork(lim, p.path, q);
      assert q[i] != p.path[i] by { LessIrreflexive(q[i]); }
      if |a.path| > i { assert false; }
    }
  }

  /** Without a carry, the range made of a path holds only extensions of it. */
  lemma SingletonPathRange(lim: Limits, p: Path, q: Path)
    requires ValidPath(lim, p) && ValidPath(lim, q) && !SuccessorCarries(lim, p)
    requires PathsInclude(Range(p, SingletonEnd(SuccessorOf(lim, p))), q)
    ensures p <= q
  {
    SuccessorMeaning(lim, p);
    var next := SuccessorOf(lim, p);
    if p != q {
      PathLessAsymmetric(p, q);
      assert next.Some?;
      if PathLeq(next.value, q) && next.value != q { PathLessAsymmetric(next.value, q); }
      PathLessIrreflexive(q);
      assert false;
    }
  }

  lemma LargerRangeIncludes(a: Range3d, b: Range3d, s: SubspaceId, p: Path, t: nat)
    requires RangeIncludesRange(a, b) && RangeIncludes(b, s, p, t)
    ensures RangeIncludes(a, s, p, t)
  {
    if a.paths.start != b.paths.start && b.paths.start != p { PathLessTransitive(a.paths.start, b.paths.start, p); }
    if a.subspaces.start != b.subspaces.start && b.subspaces.start != s { LessTransitive(a.subspaces.start, b.subspaces.start, s); }
    if a.paths.end.Closed? && b.paths.end.end != a.paths.end.end { PathLessTransitive(p, b.paths.end.end, a.paths.end.end); }
    if a.subspaces.end.Closed? && b.subspaces.end.end != a.subspaces.end.end {
      LessTransitive(s, b.subspaces.end.end, a.subspaces.end.end);
    }
  }

  lemma ReplayAreaForgotten(sub: Subscription, ns: NamespaceId, m: Store, area: Area, protected: Option<Area>)
    requires OpFits(sub.lim, sub.width, ns, m, AreaForgotten(area, protected)) && ValidStore(sub.lim, sub.width, m)
    ensures EventsEffect(ns, Subscribed(sub, m), EventsOf(sub, AreaForgotten(area, protected)))
      == Subscribed(sub, OpEffect(m, AreaForgotten(area, protected)))
  {
    var c := Subscribed(sub, m);
    var gone, gone' := Forgotten(m, area, protected), Forgotten(c, area, protected);
    var events := EventsOf(sub, AreaForgotten(area, protected));
    if AreaTouches(sub, area, protected) {
      assert events == [AreaForgottenEvent(area, protected)] && events[1..] == [];
      SubscribedMinus(sub, m, gone, gone');
    } else {
      assert events == [];
      forall k | k in m && Wanted(sub, k, m[k]) ensures k !in gone {
        if k in gone {
          assert ValidRecord(sub.lim, sub.width, k, m[k]);
          UntouchedForgetsNothing(sub, m, area, protected, k);
        }
      }
      SubscribedMinus(sub, m, gone, {});
      assert c - {} == c;
    }
  }

  // ---------------------------------------------------------------- whole logs

  lemma EffectValid(lim: Limits, width: nat, ns: NamespaceId, m: Store, op: QueuedOp)
    requires ValidStore(lim, width, m) && OpFits(lim, width, ns, m, op)
    ensures ValidStore(lim, width, OpEffect(m, op))
  {}

  lemma {:induction false} LogEffectValid(lim: Limits, width: nat, ns: NamespaceId, m: Store, log: seq<QueuedOp>)
    requires ValidStore(lim, width, m) && LogFits(lim, width, ns, m, log)
    ensures ValidStore(lim, width, LogEffect(m, log))
    decreases |log|
  {
    if log != [] {
      EffectValid(lim, width, ns, m, log[0]);
      LogEffectValid(lim, width, ns, OpEffect(m, log[0]), log[1..]);
    }
  }

  /** For every subscription and every operation: its events turn the subscribed part of the store before
      into that of the store after, if and only if the operation is replayable. Where incomplete payloads
      are not ignored, all are. */
  lemma ReplayOpIff(sub: Subscription, ns: NamespaceId, m: Store, op: QueuedOp)
    requires ValidStore(sub.lim, sub.width, m) && OpFits(sub.lim, sub.width, ns, m, op)
    ensures EventsEffect(ns, Subscribed(sub, m), EventsOf(sub, op)) == Subscribed(sub, OpEffect(m, op)) <==> Replayable(sub, m, op)
  {
    match op
    case Insertion(a, origin) => ReplayInsertion(sub, ns, m, a, origin);
    case EntryForgotten(a, available) => ReplayEntryForgotten(sub, ns, m, a, available);
    case AreaForgotten(area, protected) => ReplayAreaForgotten(sub, ns, m, area, protected);
    case PayloadForgotten(a, available) => ReplayPayloadForgotten(sub, ns, m, a, available);
    case AreaPayloadsForgotten(area, protected) => ReplayAreaPayloadsForgotten(sub, ns, m, area, protected);
    case Appended(a, previous, now) =>
      if sub.ignore.ignoreIncompletePayloads {
        ReplayCompleted(sub, ns, m, a, previous, now);
      } else {
        ReplayAppended(sub, ns, m, a, previous, now);
      }
  }

  /** An operation on payloads is reported for its own entry or area, with its own amounts; whatever was
      collected, no such event removes an entry, or changes more of it than how much of its payload is there. */
  lemma PayloadEventsNamed(sub: Subscription, op: QueuedOp, event: StoreEvent, ns: NamespaceId, c: Store)
    requires ValidOp(sub.lim, sub.width, op) && event in EventsOf(sub, op)
    requires op.Appended? || op.PayloadForgotten? || op.AreaPayloadsForgotten?
    ensures op.Appended? ==>
      event in {AppendedEvent(op.entry, op.previousAvailable, op.nowAvailable), IngestedEvent(op.entry, Local)}
    ensures event.IngestedEvent? ==> sub.ignore.ignoreIncompletePayloads
    ensures op.PayloadForgotten? ==> event == PayloadForgottenEvent(op.entry)
    ensures op.AreaPayloadsForgotten? ==> event == AreaPayloadsForgottenEvent(op.area, op.protected)
    ensures !event.IngestedEvent? ==>
      var c' := EventEffect(ns, c, event);
      c'.Keys == c.Keys && forall k | k in c :: c'[k] == c[k].(available := c'[k].available)
  {}

  ghost predicate LogReplays(sub: Subscription, m: Store, log: seq<QueuedOp>)
    decreases |log|
  {
    log == [] || (Replayable(sub, m, log[0]) && LogReplays(sub, OpEffect(m, log[0]), log[1..]))
  }

  lemma {:induction false} AllReplay(sub: Subscription, m: Store, log: seq<QueuedOp>)
    requires !sub.ignore.ignoreIncompletePayloads
    ensures LogReplays(sub, m, log)
    decreases |log|
  {
    if log != [] { AllReplay(sub, OpEffect(m, log[0]), log[1..]); }
  }

  lemma {:induction false} FittingOpsValid(lim: Limits, width: nat, ns: NamespaceId, m: Store, log: seq<QueuedOp>)
    requires LogFits(lim, width, ns, m, log)
    ensures forall i | 0 <= i < |log| :: OpOf(lim, width, ns, log[i])
    decreases |log|
  {
    if log != [] {
      FittingOpsValid(lim, width, ns, OpEffect(m, log[0]), log[1..]);
      forall i | 0 <= i < |log| ensures OpOf(lim, width, ns, log[i]) { assert i > 0 ==> log[i] == log[1..][i - 1]; }
    }
  }

  /** From a snapshot of the subscribed part, replaying the events of any log gives the subscribed
      part of the store that the log leads to. */
  lemma {:induction false} ReplayRebuilds(sub: Subscription, ns: NamespaceId, m: Store, log: seq<QueuedOp>)
    requires ValidStore(sub.lim, sub.width, m) && LogFits(sub.lim, sub.width, ns, m, log) && LogReplays(sub, m, log)
    ensures EventsEffect(ns, Subscribed(sub, m), AllEvents(sub, log)) == Subscribed(sub, LogEffect(m, log))
    decreases |log|
  {
    FittingOpsValid(sub.lim, sub.width, ns, m, log);
    if log != [] {
      ReplayOpIff(sub, ns, m, log[0]);
      EffectValid(sub.lim, sub.width, ns, m, log[0]);
      ReplayRebuilds(sub, ns, OpEffect(m, log[0]), log[1..]);
      EventsEffectConcat(ns, Subscribed(sub, m), EventsOf(sub, log[0]), AllEvents(sub, log[1..]));
    }
  }

  // ---------------------------------------------------------------- logs of the two stores

  /** The reference store reports a forgotten area entry by entry, so that its log always replays. */
  lemma {:induction false} ForgottenOpsFit(lim: Limits, width: nat, ns: NamespaceId, m: Store, order: seq<Key>, ks: set<Key>)
    requires ValidStore(lim, width, m) && Lists(order, ks) && ks <= m.Keys
    ensures LogFits(lim, width, ns, m, ForgottenOps(ns, m, order))
    ensures LogEffect(m, ForgottenOps(ns, m, order)) == m - ks
  {
    if order == [] {
      assert m - ks == m;
    } else {
      var init, k := order[..|order| - 1], order[|order| - 1];
      ForgottenOpsFit(lim, width, ns, m, init, ks - {k});
      var before := m - (ks - {k});
      var op := ForgottenOp(ns, m, k);
      assert ValidRecord(lim, width, k, m[k]) && k in before && before[k] == m[k];
      assert KeyOf(op.entry.entry) == k;
      OneOpLog(lim, width, ns, before, op);
      LogFitsConcat(lim, width, ns, m, ForgottenOps(ns, m, init), [op]);
      LogEffectConcat(m, ForgottenOps(ns, m, init), [op]);
      assert before - {k} == m - ks;
    }
  }

  lemma OneOpLog(lim: Limits, width: nat, ns: NamespaceId, m: Store, op: QueuedOp)
    ensures LogFits(lim, width, ns, m, [op]) <==> OpFits(lim, width, ns, m, op)
    ensures LogEffect(m, [op]) == OpEffect(m, op)
  {
    assert [op][1..] == [];
  }

  lemma ForgetAreaOpsFit(lim: Limits, width: nat, ns: NamespaceId, m: Store, area: Area, protected: Option<Area>, ops: seq<QueuedOp>)
    requires ValidStore(lim, width, m) && IsForgetAreaOps(ns, m, area, protected, ops)
    requires ValidArea(lim, width, area) && (protected.Some? ==> ValidArea(lim, width, protected.value))
    ensures LogFits(lim, width, ns, m, ops) && LogEffect(m, ops) == ForgetArea(m, area, protected).0
  {
    var gone := Forgotten(m, area, protected);
    var order :| Lists(order, gone)
      && ops == ForgottenOps(ns, m, order) + if order == [] then [] else [AreaForgotten(area, protected)];
    ForgottenOpsFit(lim, width, ns, m, order, gone);
    var single, op := ForgottenOps(ns, m, order), AreaForgotten(area, protected);
    if order == [] {
      assert ops == single;
    } else {
      var after := m - gone;
      assert Forgotten(after, area, protected) == {};
      assert after - {} == after;
      OneOpLog(lim, width, ns, after, op);
      LogFitsConcat(lim, width, ns, m, single, [op]);
      LogEffectConcat(m, single, [op]);
    }
  }

  /** The same for payloads. */
  lemma {:induction false} ClearedOpsFit(lim: Limits, width: nat, ns: NamespaceId, m: Store, order: seq<Key>, ks: set<Key>)
    requires ValidStore(lim, width, m) && Lists(order, ks) && ks <= m.Keys
    ensures LogFits(lim, width, ns, m, ClearedOps(ns, m, order))
    ensures LogEffect(m, ClearedOps(ns, m, order)) == WithoutPayloads(m, ks)
  {
    if order == [] {
      NoneWithout(m);
    } else {
      var init, k := order[..|order| - 1], order[|order| - 1];
      ClearedOpsFit(lim, width, ns, m, init, ks - {k});
      var before, op := WithoutPayloads(m, ks - {k}), ClearedOp(ns, m, k);
      assert ValidRecord(lim, width, k, m[k]) && k in before && before[k] == m[k];
      assert KeyOf(op.entry.entry) == k;
      OneOpLog(lim, width, ns, before, op);
      LogFitsConcat(lim, width, ns, m, ClearedOps(ns, m, init), [op]);
      LogEffectConcat(m, ClearedOps(ns, m, init), [op]);
      assert WithoutPayloads(before, {k}) == WithoutPayloads(m, ks);
    }
  }

  lemma ForgetAreaPayloadsOpsFit(lim: Limits, width: nat, ns: NamespaceId, m: Store, area: Area, protected: Option<Area>, ops: seq<QueuedOp>)
    requires ValidStore(lim, width, m) && IsForgetAreaPayloadsOps(ns, m, area, protected, ops)
    requires ValidArea(lim, width, area) && (protected.Some? ==> ValidArea(lim, width, protected.value))
    ensures LogFits(lim, width, ns, m, ops) && LogEffect(m, ops) == WithoutPayloads(m, Forgotten(m, area, protected))
  {
    var gone := Forgotten(m, area, protected);
    var order :| Lists(order, gone)
      && ops == ClearedOps(ns, m, order) + if order == [] then [] else [AreaPayloadsForgotten(area, protected)];
    ClearedOpsFit(lim, width, ns, m, order, gone);
    var single, op := ClearedOps(ns, m, order), AreaPayloadsForgotten(area, protected);
    if order == [] {
      assert ops == single;
    } else {
      AreaClearedFits(lim, width, ns, m, area, protected);
      LogFitsConcat(lim, width, ns, m, single, [op]);
      LogEffectConcat(m, single, [op]);
    }
  }

  /** Once its payloads are forgotten, the report of the area changes nothing. */
  lemma AreaClearedFits(lim: Limits, width: nat, ns: NamespaceId, m: Store, area: Area, protected: Option<Area>)
    requires ValidArea(lim, width, area) && (protected.Some? ==> ValidArea(lim, width, protected.value))
    ensures var after, ops := WithoutPayloads(m, Forgotten(m, area, protected)), [AreaPayloadsForgotten(area, protected)];
      LogFits(lim, width, ns, after, ops) && LogEffect(after, ops) == after
  {
    var gone := Forgotten(m, area, protected);
    var after := WithoutPayloads(m, gone);
    assert Forgotten(after, area, protected) == gone && WithoutPayloads(after, gone) == after;
    OneOpLog(lim, width, ns, after, AreaPayloadsForgotten(area, protected));
  }

  lemma ForgetPayloadOpsFit(lim: Limits, width: nat, ns: NamespaceId, m: Store, k: Key)
    requires ValidStore(lim, width, m) && k in m
    ensures LogFits(lim, width, ns, m, [ClearedOp(ns, m, k)]) && LogEffect(m, [ClearedOp(ns, m, k)]) == WithoutPayloads(m, {k})
  {
    assert ValidRecord(lim, width, k, m[k]);
    var op := ClearedOp(ns, m, k);
    assert KeyOf(op.entry.entry) == k;
    OneOpLog(lim, width, ns, m, op);
  }

  lemma AppendOpsFit(lim: Limits, width: nat, ns: NamespaceId, m: Store, k: Key, expected: Option<nat>, bytes: nat, digestMatches: bool)
    requires ValidStore(lim, width, m)
    ensures var ops := AppendOps(ns, m, k, expected, bytes, digestMatches);
      LogFits(lim, width, ns, m, ops) && LogEffect(m, ops) == AppendTo(m, k, expected, bytes, digestMatches).0
  {
    if k in m {
      assert ValidRecord(lim, width, k, m[k]);
      var a := Restore(ns, k, m[k]);
      assert KeyOf(a.entry) == k;
      OneWithout(m, k);
      OneOpLog(lim, width, ns, m, PayloadForgotten(a, 0));
      OneOpLog(lim, width, ns, m, Appended(a, m[k].available, m[k].available + bytes));
      assert m[k := m[k].(available := m[k].available)] == m;
    }
  }

  lemma ForgetEntryOpsFit(lim: Limits, width: nat, ns: NamespaceId, m: Store, k: Key, expected: Option<nat>)
    requires ValidStore(lim, width, m)
    ensures LogFits(lim, width, ns, m, ForgetEntryOps(ns, m, k, expected))
    ensures LogEffect(m, ForgetEntryOps(ns, m, k, expected)) == ForgetEntry(m, k, expected).0
  {
    if k in m && (expected.None? || m[k].digest == expected.value) {
      assert ValidRecord(lim, width, k, m[k]);
      var op := ForgottenOp(ns, m, k);
      assert KeyOf(op.entry.entry) == k;
      OneOpLog(lim, width, ns, m, op);
    }
  }

  lemma IngestOpsFit(lim: Limits, width: nat, ns: NamespaceId, m: Store, a: AuthorisedEntry, preventPruning: bool, origin: EntryOrigin)
    requires ValidEntry(lim, width, a.entry) && a.entry.namespaceId == ns
    ensures var ops := if Ingest(ns, m, a, preventPruning).1.Success? then [Insertion(a, origin)] else [];
      LogFits(lim, width, ns, m, ops) && LogEffect(m, ops) == Ingest(ns, m, a, preventPruning).0
  {
    OneOpLog(lim, width, ns, m, Insertion(a, origin));
  }
}
