/** Whether a subscriber is alerted of what an entry prunes before it hears of the entry. */
module Alerts {
  import opened Entries
  import opened StoreEvents
  import opened Replay

  /** Where incomplete payloads are not ignored, every ingestion is announced by the alert right before it. */
  lemma {:induction false} AlertPrecedesIngestion(sub: Subscription, log: seq<QueuedOp>, i: nat)
    requires !sub.ignore.ignoreIncompletePayloads
    requires i < |AllEvents(sub, log)| && AllEvents(sub, log)[i].IngestedEvent?
    ensures i > 0 && AllEvents(sub, log)[i - 1] == PruneAlertEvent(AllEvents(sub, log)[i].entry)
  {
    var now := if ValidOp(sub.lim, sub.width, log[0]) then EventsOf(sub, log[0]) else [];
    if i >= |now| {
      AlertPrecedesIngestion(sub, log[1..], i - |now|);
    }
  }

  // ---------------------------------------------------------------- all subscriptions

  predicate Alerted(events: seq<StoreEvent>, a: AuthorisedEntry) {
    exists j :: 0 <= j < |events| && events[j] == PruneAlertEvent(a)
  }

  /** Every ingestion comes after an alert for the same entry. */
  predicate AlertsComeFirst(events: seq<StoreEvent>) {
    forall i | 0 <= i < |events| && events[i].IngestedEvent? :: Alerted(events[..i], events[i].entry)
  }

  predicate AlertsComeFirstAfter(before: seq<StoreEvent>, events: seq<StoreEvent>) {
    forall i | 0 <= i < |events| && events[i].IngestedEvent? :: Alerted(before, events[i].entry) || Alerted(events[..i], events[i].entry)
  }

  predicate Inserted(log: seq<QueuedOp>, a: AuthorisedEntry) {
    exists j :: 0 <= j < |log| && log[j].Insertion? && log[j].entry == a
  }

  /** A payload grows so far that the entry is not ignored any more, and is reported as ingested now. */
  predicate IngestsLate(sub: Subscription, op: QueuedOp) {
    && op.Appended? && sub.ignore.ignoreIncompletePayloads && Covered(sub, op.entry.entry)
    && !IgnoresLengthy(sub.ignore, op.entry.entry.payloadLength, op.nowAvailable)
  }

  /** Whatever is reported late was inserted within the same log. */
  predicate LateOnesInserted(sub: Subscription, log: seq<QueuedOp>) {
    forall i | 0 <= i < |log| && IngestsLate(sub, log[i]) :: Inserted(log[..i], log[i].entry)
  }

  predicate ValidLog(sub: Subscription, log: seq<QueuedOp>) {
    forall i | 0 <= i < |log| :: ValidOp(sub.lim, sub.width, log[i])
  }

  lemma AlertedConcat(a: seq<StoreEvent>, b: seq<StoreEvent>, e: AuthorisedEntry)
    ensures Alerted(a + b, e) <==> Alerted(a, e) || Alerted(b, e)
  {
    if Alerted(a, e) {
      var j :| 0 <= j < |a| && a[j] == PruneAlertEvent(e);
      assert (a + b)[j] == PruneAlertEvent(e);
    }
    if Alerted(b, e) {
      var j :| 0 <= j < |b| && b[j] == PruneAlertEvent(e);
      assert (a + b)[|a| + j] == PruneAlertEvent(e);
    }
  }

  lemma AlertsFirstConcat(a: seq<StoreEvent>, b: seq<StoreEvent>)
    ensures AlertsComeFirst(a + b) <==> AlertsComeFirst(a) && AlertsComeFirstAfter(a, b)
  {
    var all := a + b;
    forall i | 0 <= i < |a| ensures all[i] == a[i] && all[..i] == a[..i] {}
    forall i | 0 <= i < |b| && b[i].IngestedEvent?
      ensures all[|a| + i] == b[i]
      ensures Alerted(all[..|a| + i], b[i].entry) <==> Alerted(a, b[i].entry) || Alerted(b[..i], b[i].entry)
    {
      assert all[..|a| + i] == a + b[..i];
      AlertedConcat(a, b[..i], b[i].entry);
    }
    if AlertsComeFirst(all) {
      forall i | 0 <= i < |b| && b[i].IngestedEvent? ensures Alerted(a, b[i].entry) || Alerted(b[..i], b[i].entry) {
        assert all[|a| + i].IngestedEvent?;
      }
      forall i | 0 <= i < |a| && a[i].IngestedEvent? ensures Alerted(a[..i], a[i].entry) { assert all[i] == a[i]; }
    }
  }

  lemma InsertedSnoc(log: seq<QueuedOp>, op: QueuedOp, a: AuthorisedEntry)
    ensures Inserted(log + [op], a) <==> Inserted(log, a) || (op.Insertion? && op.entry == a)
  {
    var all := log + [op];
    assert all[|log|] == op && forall j | 0 <= j < |log| :: all[j] == log[j];
  }

  lemma LateOnesSnoc(sub: Subscription, log: seq<QueuedOp>, op: QueuedOp)
    ensures LateOnesInserted(sub, log + [op]) <==>
      LateOnesInserted(sub, log) && (IngestsLate(sub, op) ==> Inserted(log, op.entry))
  {
    var all := log + [op];
    assert all[|log|] == op && all[..|log|] == log;
    forall i | 0 <= i < |log| ensures all[i] == log[i] && all[..i] == log[..i] {}
  }

  lemma EventsSnoc(sub: Subscription, log: seq<QueuedOp>, op: QueuedOp)
    requires ValidOp(sub.lim, sub.width, op)
    ensures AllEvents(sub, log + [op]) == AllEvents(sub, log) + EventsOf(sub, op)
  {
    AllEventsConcat(sub, log, [op]);
    assert [op][1..] == [] && AllEvents(sub, [op]) == EventsOf(sub, op) + [];
  }

  /** Covered entries are announced exactly if they were inserted. */
  lemma {:induction false} AlertedIff(sub: Subscription, log: seq<QueuedOp>, a: AuthorisedEntry)
    requires ValidLog(sub, log) && Covered(sub, a.entry)
    ensures Alerted(AllEvents(sub, log), a) <==> Inserted(log, a)
  {
    if log != [] {
      var init, op := log[..|log| - 1], log[|log| - 1];
      assert log == init + [op];
      AlertedIff(sub, init, a);
      EventsSnoc(sub, init, op);
      AlertedConcat(AllEvents(sub, init), EventsOf(sub, op), a);
      InsertedSnoc(init, op, a);
      AlertOf(sub, op, a);
    }
  }

  lemma AlertOf(sub: Subscription, op: QueuedOp, a: AuthorisedEntry)
    requires ValidOp(sub.lim, sub.width, op) && Covered(sub, a.entry)
    ensures Alerted(EventsOf(sub, op), a) <==> op.Insertion? && op.entry == a
  {
    if op.Insertion? && op.entry == a { assert EventsOf(sub, op)[0] == PruneAlertEvent(a); }
  }

  /** Over any log, every ingestion comes after an alert for the same entry if and only if every entry
      that is reported late was inserted within the log, and so while the subscription existed. */
  lemma {:induction false} AlertsFirstIff(sub: Subscription, log: seq<QueuedOp>)
    requires ValidLog(sub, log)
    ensures AlertsComeFirst(AllEvents(sub, log)) <==> LateOnesInserted(sub, log)
  {
    if log != [] {
      var init, op := log[..|log| - 1], log[|log| - 1];
      assert log == init + [op];
      AlertsFirstIff(sub, init);
      EventsSnoc(sub, init, op);
      LateOnesSnoc(sub, init, op);
      AlertsFirstConcat(AllEvents(sub, init), EventsOf(sub, op));
      LastOp(sub, init, op);
    }
  }

  /** The ingestion that the last operation causes, if any, is announced unless it is late and unknown. */
  lemma LastOp(sub: Subscription, log: seq<QueuedOp>, op: QueuedOp)
    requires ValidLog(sub, log) && ValidOp(sub.lim, sub.width, op)
    ensures AlertsComeFirstAfter(AllEvents(sub, log), EventsOf(sub, op)) <==> (IngestsLate(sub, op) ==> Inserted(log, op.entry))
  {
    var now := EventsOf(sub, op);
    if IngestsLate(sub, op) {
      AlertedIff(sub, log, op.entry);
      assert now[0].IngestedEvent? && now[0].entry == op.entry && now[..0] == [];
    } else if op.Insertion? && |now| == 2 {
      assert now[..1][0] == PruneAlertEvent(op.entry);
    }
  }

  /** Payloads grow only under entries that a store which began empty holds at the time. */
  predicate AppendsHeld(log: seq<QueuedOp>) {
    forall i | 0 <= i < |log| && log[i].Appended? ::
      var k, m := KeyOf(log[i].entry.entry), LogEffect(map[], log[..i]);
      k in m && m[k].(available := 0) == FreshRecord(log[i].entry)
  }

  lemma {:induction false} HeldWasInserted(log: seq<QueuedOp>, k: Key) returns (j: nat)
    requires k in LogEffect(map[], log)
    ensures j < |log| && log[j].Insertion? && k == KeyOf(log[j].entry.entry) && LogEffect(map[], log)[k].(available := 0) == FreshRecord(log[j].entry)
    decreases |log|
  {
    var n := |log| - 1;
    var init, op := log[..n], log[n];
    assert log == init + [op] && [op][1..] == [];
    LogEffectConcat(map[], init, [op]);
    assert LogEffect(map[], log) == OpEffect(LogEffect(map[], init), op);
    if op.Insertion? && k == KeyOf(op.entry.entry) { return n; }
    j := HeldWasInserted(init, k);
  }

  /** Whoever subscribes before the first operation is always alerted first. */
  lemma EarlySubscriberAlerted(sub: Subscription, ns: NamespaceId, log: seq<QueuedOp>)
    requires (forall i | 0 <= i < |log| :: OpOf(sub.lim, sub.width, ns, log[i])) && AppendsHeld(log)
    ensures AlertsComeFirst(AllEvents(sub, log))
  {
    forall i | 0 <= i < |log| && IngestsLate(sub, log[i]) ensures Inserted(log[..i], log[i].entry) {
      var j := HeldWasInserted(log[..i], KeyOf(log[i].entry.entry));
      assert log[..i][j] == log[j] && log[j].entry == log[i].entry;
    }
    AlertsFirstIff(sub, log);
  }

  /** A late subscriber: it ignores incomplete payloads and joins between the insertion of an entry and
      the completion of its payload. It hears of the entry without any alert. */
  lemma LateSubscriberNotAlerted(sub: Subscription, a: AuthorisedEntry)
    requires ValidEntry(sub.lim, sub.width, a.entry) && Covered(sub, a.entry) && a.entry.payloadLength > 0
    requires sub.ignore.ignoreIncompletePayloads
    ensures var log := [Insertion(a, Local), Appended(a, 0, a.entry.payloadLength)];
      && AlertsComeFirst(AllEvents(sub, log))
      && AllEvents(sub, log[1..]) == [IngestedEvent(a, Local), AppendedEvent(a, 0, a.entry.payloadLength)]
      && !AlertsComeFirst(AllEvents(sub, log[1..]))
  {
    var insertion, append := Insertion(a, Local), Appended(a, 0, a.entry.payloadLength);
    var log := [insertion, append];
    assert log[1..] == [append] && [append][1..] == [];
    assert AllEvents(sub, [append]) == EventsOf(sub, append) + [];
    assert log[..1][0] == insertion;
    assert Inserted(log[..1], a);
    AlertsFirstIff(sub, log);
    assert [append][..0] == [] && !Inserted([append][..0], a);
    assert IngestsLate(sub, [append][0]);
    AlertsFirstIff(sub, [append]);
  }
}
