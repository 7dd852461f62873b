/** The shared queue of operations, the cursor cells of its subscribers, and the producers of events. */
module EventLog {
  import opened Wrappers
  import opened Paths
  import opened Grouping
  import opened Entries
  import opened StoreEvents
  import opened Replay

  // ---------------------------------------------------------------- positions in a log

  datatype Queue = Queue(ops: seq<QueuedOp>, popped: nat, capacity: nat)

  /** The queue is the end of the log, and all of it unless it is full. Nothing ever counts what was popped. */
  ghost predicate QueueOk(lim: Limits, width: nat, ns: NamespaceId, log: seq<QueuedOp>, q: Queue) {
    match q
    case Queue(ops, popped, capacity) =>
      && |ops| <= |log| && 0 < capacity && |ops| <= capacity && popped == 0
      && (|ops| < capacity ==> |ops| == |log|)
      && forall i | 0 <= i < |ops| :: ops[i] == log[|log| - |ops| + i] && OpOf(lim, width, ns, ops[i])
  }

  /** Where a subscriber is: the id it will ask for, when it subscribed, the operations it saw,
      and how many were taken from it. */
  datatype Position = Position(next: Option<nat>, start: nat, seen: seq<QueuedOp>, lost: nat)

  function Reached(p: Position): nat {
    p.start + |p.seen| + p.lost
  }

  /** The operations of the log from `start` on, as far as they go. */
  ghost predicate IsLogFrom(log: seq<QueuedOp>, start: nat, seen: seq<QueuedOp>) {
    if seen == [] then start <= |log|
    else
      var n := |seen| - 1;
      start + n < |log| && seen[n] == log[start + n] && IsLogFrom(log, start, seen[..n])
  }

  lemma {:induction false} LogGrows(log: seq<QueuedOp>, start: nat, seen: seq<QueuedOp>, op: QueuedOp)
    requires IsLogFrom(log, start, seen)
    ensures IsLogFrom(log + [op], start, seen)
  {
    if seen != [] { LogGrows(log, start, seen[..|seen| - 1], op); }
  }

  lemma {:induction false} LogFromIsSlice(log: seq<QueuedOp>, start: nat, seen: seq<QueuedOp>)
    requires IsLogFrom(log, start, seen)
    ensures start + |seen| <= |log| && seen == log[start..start + |seen|]
  {
    if seen != [] {
      var n := |seen| - 1;
      LogFromIsSlice(log, start, seen[..n]);
      assert seen == seen[..n] + [seen[n]];
    }
  }

  /** The last `kept` operations of the log are still there, numbered from zero. No id means that
      everything was reached. Whatever was not lost was seen, in order. */
  ghost predicate PositionOk(log: seq<QueuedOp>, kept: nat, p: Position) {
    match p
    case Position(next, start, seen, lost) =>
      var reached := start + |seen| + lost;
      && kept <= |log| && reached <= |log|
      && (next.None? <==> reached == |log|)
      && (next.Some? ==> next.value < kept && next.value + |log| - kept == reached)
      && (lost == 0 ==> IsLogFrom(log, start, seen))
      && (kept == |log| ==> lost == 0)
  }

  lemma StartOk(log: seq<QueuedOp>, kept: nat)
    requires kept <= |log|
    ensures PositionOk(log, kept, Position(None, |log|, [], 0))
  {}

  /** The effect of a new operation: whoever waited is told its id. If the queue was full, whoever
      did not wait loses one operation, because ids are not adjusted. */
  function Advance(p: Position, id: nat, full: bool): Position {
    if p.next.None? then p.(next := Some(id))
    else if full then p.(lost := p.lost + 1)
    else p
  }

  lemma AdvanceOk(log: seq<QueuedOp>, kept: nat, capacity: nat, p: Position, op: QueuedOp)
    requires PositionOk(log, kept, p) && kept <= capacity && 0 < capacity
    ensures var full := kept == capacity;
      var kept' := if full then kept else kept + 1;
      PositionOk(log + [op], kept', Advance(p, kept' - 1, full))
  {
    if p.lost == 0 { LogGrows(log, p.start, p.seen, op); }
  }

  /** Consume the operation at the position. */
  function Consume(p: Position, kept: nat, op: QueuedOp): Position
    requires p.next.Some?
  {
    p.(next := if p.next.value + 1 == kept then None else Some(p.next.value + 1), seen := p.seen + [op])
  }

  lemma ConsumeOk(log: seq<QueuedOp>, kept: nat, p: Position)
    requires PositionOk(log, kept, p) && p.next.Some?
    ensures Reached(p) < |log| && PositionOk(log, kept, Consume(p, kept, log[Reached(p)]))
  {
    var op := log[Reached(p)];
    assert (p.seen + [op])[..|p.seen|] == p.seen;
  }

  /** An up-to-date subscriber saw precisely what was queued since it subscribed, once each and in
      order, if and only if nothing was lost. */
  lemma SawEverythingIff(log: seq<QueuedOp>, kept: nat, p: Position)
    requires PositionOk(log, kept, p) && p.next.None?
    ensures p.seen == log[p.start..] <==> p.lost == 0
  {
    if p.lost == 0 { LogFromIsSlice(log, p.start, p.seen); }
  }

  // ---------------------------------------------------------------- the event system

  /** The cell that a subscriber shares with the event system. */
  class Cursor {
    var nextOpId: Option<nat>
    ghost const start: nat
    ghost var seen: seq<QueuedOp>
    ghost var lost: nat

    ghost function At(): Position
      reads this
    {
      Position(nextOpId, start, seen, lost)
    }

    constructor (ghost start: nat)
      ensures At() == Position(None, start, [], 0)
    {
      nextOpId := None;
      this.start, seen, lost := start, [], 0;
    }
  }

  class EventSystem {
    const lim: Limits
    const width: nat
    const maxQueueCapacity: nat
    var opQueue: seq<QueuedOp>
    var poppedCount: nat
    var subscribers: set<Cursor>
    ghost const namespace: NamespaceId
    ghost var log: seq<QueuedOp>

    ghost function State(): Queue
      reads this`opQueue, this`poppedCount
    {
      Queue(opQueue, poppedCount, maxQueueCapacity)
    }

    ghost predicate Valid()
      reads this, subscribers
    {
      QueueOk(lim, width, namespace, log, State()) && forall c | c in subscribers :: PositionOk(log, |opQueue|, c.At())
    }

    constructor (lim: Limits, width: nat, maxQueueCapacity: nat, ghost namespace: NamespaceId)
      requires maxQueueCapacity > 0
      ensures Valid() && log == [] && subscribers == {} && this.namespace == namespace
      ensures this.lim == lim && this.width == width && this.maxQueueCapacity == maxQueueCapacity
    {
      this.lim, this.width, this.maxQueueCapacity := lim, width, maxQueueCapacity;
      this.namespace := namespace;
      opQueue, poppedCount, subscribers, log := [], 0, {}, [];
    }

    method AddCursor() returns (c: Cursor)
      requires Valid()
      modifies this`subscribers
      ensures Valid() && fresh(c) && subscribers == old(subscribers) + {c}
      ensures c.At() == Position(None, |log|, [], 0)
    {
      StartOk(log, |opQueue|);
      c := new Cursor(|log|);
      assert PositionOk(log, |opQueue|, c.At());
      subscribers := subscribers + {c};
    }

    method Drop(c: Cursor)
      requires Valid()
      modifies this`subscribers
      ensures Valid() && subscribers == old(subscribers) - {c}
    {
      subscribers := subscribers - {c};
    }

    /** Push an operation, pop the oldest one if there are too many, and wake whoever waits. */
    method EnqueueOp(op: QueuedOp)
      requires Valid() && OpOf(lim, width, namespace, op)
      modifies this`opQueue, this`log, subscribers
      ensures Valid() && log == old(log) + [op]
      ensures forall c | c in subscribers ::
        c.At() == Advance(old(c.At()), |opQueue| - 1, |old(opQueue)| == maxQueueCapacity)
    {
      ghost var before := log;
      ghost var kept := |opQueue|;
      Push(op);
      Wake(poppedCount + |opQueue| - 1, kept == maxQueueCapacity);
      forall c | c in subscribers ensures PositionOk(log, |opQueue|, c.At()) {
        AdvanceOk(before, kept, maxQueueCapacity, old(c.At()), op);
      }
    }

    method Push(op: QueuedOp)
      requires QueueOk(lim, width, namespace, log, State()) && OpOf(lim, width, namespace, op)
      modifies this`opQueue, this`log
      ensures QueueOk(lim, width, namespace, log, State()) && log == old(log) + [op]
      ensures |opQueue| == |old(opQueue)| + if |old(opQueue)| == maxQueueCapacity then 0 else 1
    {
      opQueue := opQueue + [op];
      log := log + [op];
      if |opQueue| > maxQueueCapacity { opQueue := opQueue[1..]; }
    }

    method Wake(id: nat, ghost full: bool)
      modifies subscribers
      ensures forall c | c in subscribers :: c.At() == Advance(old(c.At()), id, full)
    {
      var remaining := subscribers;
      while remaining != {}
        invariant remaining <= subscribers
        invariant forall c | c in subscribers ::
          c.At() == if c in remaining then old(c.At()) else Advance(old(c.At()), id, full)
        decreases remaining
      {
        var c :| c in remaining;
        if c.nextOpId.None? {
          c.nextOpId := Some(id);
        } else if full {
          c.lost := c.lost + 1;
        }
        remaining := remaining - {c};
      }
    }

    /** Take the id out of the cell, resolve it, and put the next one back unless this was the last. */
    method TakeOp(c: Cursor) returns (op: Option<QueuedOp>)
      requires Valid() && c in subscribers && c.nextOpId.Some?
      modifies c
      ensures Valid() && op.Some? && OpOf(lim, width, namespace, op.value)
      ensures c.At() == Consume(old(c.At()), |opQueue|, op.value) && |c.seen| <= |log|
    {
      ghost var at := c.At();
      ConsumeOk(log, |opQueue|, at);
      var opId := c.nextOpId.value;
      op := ResolveOpId(opId);
      ghost var at' := Consume(at, |opQueue|, op.value);
      assert PositionOk(log, |opQueue|, at');
      c.nextOpId := None;
      if opId + 1 != poppedCount + |opQueue| { c.nextOpId := Some(opId + 1); }
      c.seen := c.seen + [op.value];
      assert c.At() == at';
    }

    function ResolveOpId(id: nat): Option<QueuedOp>
      reads this
    {
      if id < poppedCount || id - poppedCount >= |opQueue| then None else Some(opQueue[id - poppedCount])
    }
  }

  // ---------------------------------------------------------------- producing events

  function Buffered(event: Option<StoreEvent>): seq<StoreEvent> {
    match event case None => [] case Some(e) => [e]
  }

  datatype Progress = Progress(seen: seq<QueuedOp>, emitted: seq<StoreEvent>, buffered: Option<StoreEvent>)

  /** What was emitted, and what is buffered, are the events of the operations seen. */
  ghost predicate Explained(sub: Subscription, ns: NamespaceId, p: Progress) {
    match p
    case Progress(seen, emitted, buffered) =>
      && emitted + Buffered(buffered) == AllEvents(sub, seen)
      && (buffered.Some? ==> EventIn(ns, buffered.value))
  }

  lemma NothingSeen(sub: Subscription, ns: NamespaceId, seen: seq<QueuedOp>, emitted: seq<StoreEvent>)
    requires seen == [] && emitted == []
    ensures Explained(sub, ns, Progress(seen, emitted, None))
  {}

  lemma EmitBuffered(sub: Subscription, ns: NamespaceId, p: Progress)
    requires Explained(sub, ns, p) && p.buffered.Some?
    ensures Explained(sub, ns, Progress(p.seen, p.emitted + [p.buffered.value], None)) && EventIn(ns, p.buffered.value)
  {}

  /** Seeing one more operation: its first event is emitted, its second one is buffered. */
  lemma SeenStep(sub: Subscription, ns: NamespaceId, p: Progress, op: QueuedOp, first: Option<StoreEvent>, second: Option<StoreEvent>)
    requires Explained(sub, ns, p) && p.buffered.None? && ValidOp(sub.lim, sub.width, op)
    requires Buffered(first) + Buffered(second) == EventsOf(sub, op) && (second.Some? ==> EventIn(ns, second.value))
    ensures Explained(sub, ns, Progress(p.seen + [op], p.emitted + Buffered(first), second))
  {
    AllEventsConcat(sub, p.seen, [op]);
    assert [op][1..] == [] && AllEvents(sub, [op]) == EventsOf(sub, op);
    assert AllEvents(sub, p.seen + [op]) == (p.emitted + Buffered(first)) + Buffered(second);
  }

  lemma AllEmitted(sub: Subscription, ns: NamespaceId, p: Progress)
    requires Explained(sub, ns, p) && p.buffered.None?
    ensures p.emitted == AllEvents(sub, p.seen)
  {}

  datatype Produced = Event(event: StoreEvent) | Ended | Waiting

  function Emitted(r: Produced): seq<StoreEvent> {
    if r.Event? then [r.event] else []
  }

  class Subscriber {
    const events: EventSystem
    const cursor: Cursor
    const sub: Subscription
    var bufferedEvent: Option<StoreEvent>
    ghost var emitted: seq<StoreEvent>

    ghost function Status(): Progress
      reads this, cursor
    {
      Progress(cursor.seen, emitted, bufferedEvent)
    }

    /** How many events may still be to come. */
    ghost function Outstanding(): int
      reads this, events, cursor
    {
      2 * (|events.log| - |cursor.seen|) + |Buffered(bufferedEvent)|
    }

    ghost predicate Valid()
      reads this, events, events.subscribers, cursor
    {
      && events.Valid() && cursor in events.subscribers
      && sub.lim == events.lim && sub.width == events.width
      && Explained(sub, events.namespace, Status())
    }

    constructor (events: EventSystem, cursor: Cursor, sub: Subscription)
      requires events.Valid() && cursor in events.subscribers && cursor.seen == []
      requires sub.lim == events.lim && sub.width == events.width
      ensures Valid() && emitted == []
      ensures this.events == events && this.cursor == cursor && this.sub == sub
    {
      this.events, this.cursor, this.sub := events, cursor, sub;
      bufferedEvent, emitted := None, [];
      new;
      NothingSeen(sub, events.namespace, cursor.seen, emitted);
    }

    /** The next event: a buffered one, or the first of those of the next operation that has any.
        A subscription never ends, however far it lags behind. */
    method Produce() returns (r: Produced)
      requires Valid()
      modifies this`bufferedEvent, this`emitted, cursor
      ensures Valid() && !r.Ended?
      ensures emitted == old(emitted) + Emitted(r) && (r.Event? ==> EventIn(events.namespace, r.event))
      ensures old(cursor.seen) <= cursor.seen && cursor.lost == old(cursor.lost)
      ensures r.Event? ==> Outstanding() < old(Outstanding())
      ensures r.Waiting? ==> cursor.nextOpId.None? && emitted == AllEvents(sub, cursor.seen)
    {
      if bufferedEvent.Some? {
        var event := bufferedEvent.value;
        EmitBuffered(sub, events.namespace, Status());
        bufferedEvent, emitted := None, emitted + [event];
        return Event(event);
      }
      while true
        invariant Valid() && bufferedEvent.None? && emitted == old(emitted)
        invariant old(cursor.seen) <= cursor.seen && cursor.lost == old(cursor.lost)
        decreases |events.log| - |cursor.seen|
      {
        if cursor.nextOpId.None? {
          AllEmitted(sub, events.namespace, Status());
          return Waiting;
        }
        var alive, first := Step();
        if !alive { return Ended; }
        if first.Some? { return Event(first.value); }
      }
    }

    /** One turn: take an operation and emit its first event, if it has any. */
    method Step() returns (alive: bool, first: Option<StoreEvent>)
      requires Valid() && bufferedEvent.None? && cursor.nextOpId.Some?
      modifies this`bufferedEvent, this`emitted, cursor
      ensures Valid() && alive && (first.None? ==> bufferedEvent.None?)
      ensures first.Some? ==> EventIn(events.namespace, first.value)
      ensures emitted == old(emitted) + Buffered(first)
      ensures cursor.lost == old(cursor.lost) && |cursor.seen| <= |events.log|
      ensures |cursor.seen| == |old(cursor.seen)| + 1 && old(cursor.seen) <= cursor.seen
    {
      ghost var was := Status();
      var op := events.TakeOp(cursor);
      if op.None? { return false, None; }
      var second;
      first, second := EventsFor(op.value, events.namespace);
      SeenStep(sub, events.namespace, was, op.value, first, second);
      alive, bufferedEvent, emitted := true, second, was.emitted + Buffered(first);
    }

    /** The events of one operation: the first one, and one to buffer. */
    method EventsFor(op: QueuedOp, ghost ns: NamespaceId) returns (first: Option<StoreEvent>, second: Option<StoreEvent>)
      requires OpOf(sub.lim, sub.width, ns, op)
      ensures first.Some? ==> EventIn(ns, first.value)
      ensures second.Some? ==> EventIn(ns, second.value)
      ensures Buffered(first) + Buffered(second) == EventsOf(sub, op)
      ensures first.None? ==> second.None?
    {
      first, second := None, None;
      match op
      case Appended(a, previous, now) =>
        if !Covered(sub, a.entry) || IgnoresLengthy(sub.ignore, a.entry.payloadLength, now) { return; }
        if sub.ignore.ignoreIncompletePayloads {
          second := Some(AppendedEvent(a, previous, now));
          first := Some(IngestedEvent(a, Local));
        } else {
          first := Some(AppendedEvent(a, previous, now));
        }
      case AreaForgotten(area, protected) =>
        if RangesMeet(RangeFromArea(sub.lim, sub.width, area), sub.range) {
          if protected.Some? && RangeIncludesRange(RangeFromArea(sub.lim, sub.width, protected.value), sub.range) { return; }
          first := Some(AreaForgottenEvent(area, protected));
        }
      case AreaPayloadsForgotten(area, protected) =>
        if RangesMeet(RangeFromArea(sub.lim, sub.width, area), sub.range) {
          if protected.Some? && RangeIncludesRange(RangeFromArea(sub.lim, sub.width, protected.value), sub.range) { return; }
          first := Some(AreaPayloadsForgottenEvent(area, protected));
        }
      case EntryForgotten(a, available) =>
        if Covered(sub, a.entry) && !IgnoresLengthy(sub.ignore, a.entry.payloadLength, available) {
          first := Some(EntryForgottenEvent(a));
        }
      case Insertion(a, origin) =>
        if Covered(sub, a.entry) {
          if !IgnoresFresh(sub.ignore, a.entry) { second := Some(IngestedEvent(a, origin)); }
          first := Some(PruneAlertEvent(a));
        } else if CouldPruneIn(sub.range, a.entry.subspace, a.entry.path, a.entry.timestamp) {
          first := Some(PruneAlertEvent(a));
        }
      case PayloadForgotten(a, available) =>
        if Covered(sub, a.entry) && !IgnoresLengthy(sub.ignore, a.entry.payloadLength, available) {
          first := Some(PayloadForgottenEvent(a));
        }
    }
  }

  /** A new subscription starts at the end of the log. */
  method AddSubscription(events: EventSystem, range: Range3d, ignore: QueryIgnoreParams) returns (s: Subscriber)
    requires events.Valid()
    modifies events`subscribers
    ensures fresh(s) && s.Valid() && s.emitted == [] && fresh(s.cursor)
    ensures s.events == events && events.subscribers == old(events.subscribers) + {s.cursor}
    ensures s.cursor.At() == Position(None, |events.log|, [], 0)
    ensures s.sub == Subscription(events.lim, events.width, range, ignore)
  {
    var cursor := events.AddCursor();
    s := new Subscriber(events, cursor, Subscription(events.lim, events.width, range, ignore));
  }
}
