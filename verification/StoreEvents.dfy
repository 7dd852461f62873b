/** The operations a store puts into its event queue, and the events a subscriber makes of them. */
module StoreEvents {
  import opened Wrappers
  import opened ByteStrings
  import opened Paths
  import opened Grouping
  import opened Entries

  datatype EntryOrigin = Local | Remote(id: nat)

  datatype QueuedOp =
    | Insertion(entry: AuthorisedEntry, origin: EntryOrigin)
    | Appended(entry: AuthorisedEntry, previousAvailable: nat, nowAvailable: nat)
    | EntryForgotten(entry: AuthorisedEntry, available: nat)
    | AreaForgotten(area: Area, protected: Option<Area>)
    | PayloadForgotten(entry: AuthorisedEntry, available: nat)
    | AreaPayloadsForgotten(area: Area, protected: Option<Area>)

  datatype StoreEvent =
    | IngestedEvent(entry: AuthorisedEntry, origin: EntryOrigin)
    | AppendedEvent(entry: AuthorisedEntry, previousAvailable: nat, nowAvailable: nat)
    | EntryForgottenEvent(entry: AuthorisedEntry)
    | AreaForgottenEvent(area: Area, protected: Option<Area>)
    | PayloadForgottenEvent(entry: AuthorisedEntry)
    | AreaPayloadsForgottenEvent(area: Area, protected: Option<Area>)
    | PruneAlertEvent(cause: AuthorisedEntry)

  datatype QueryIgnoreParams = QueryIgnoreParams(ignoreIncompletePayloads: bool, ignoreEmptyPayloads: bool)

  predicate IgnoresFresh(ignore: QueryIgnoreParams, e: Entry) {
    (ignore.ignoreEmptyPayloads && e.payloadLength == 0)
    || (ignore.ignoreIncompletePayloads && e.payloadLength != 0)
  }

  predicate IgnoresLengthy(ignore: QueryIgnoreParams, payloadLength: nat, available: nat) {
    (ignore.ignoreEmptyPayloads && payloadLength == 0)
    || (ignore.ignoreIncompletePayloads && available != payloadLength)
  }

  /** What forgetting one entry puts into the queue. */
  function ForgetEntryOps(ns: NamespaceId, m: Store, k: Key, expected: Option<nat>): seq<QueuedOp> {
    if k in m && (expected.None? || m[k].digest == expected.value)
    then [EntryForgotten(Restore(ns, k, m[k]), m[k].available)] else []
  }

  /** What forgetting an entry means: an entry with another digest than the expected one stays and nothing
      is reported; any other one goes and is reported, with as much of its payload as was there. */
  ghost predicate ForgetEntryMeaning(ns: NamespaceId, m: Store, k: Key, expected: Option<nat>,
                               m': Store, r: Result<(), ForgetError>, reported: seq<QueuedOp>)
  {
    match r
    case Err(_) => k in m && expected.Some? && m[k].digest != expected.value && m' == m && reported == []
    case Ok(_) =>
      && (k in m && expected.Some? ==> m[k].digest == expected.value)
      && (forall j :: j in m' <==> j in m && j != k) && (forall j | j in m' :: m'[j] == m[j])
      && reported == if k !in m then [] else
        [EntryForgotten(AuthorisedEntry(Entry(ns, k.subspace, k.path, m[k].timestamp, m[k].payloadLength, m[k].digest), m[k].token), m[k].available)]
  }

  /** What forgetting an area means: exactly the records inside it and outside of the protected area go. */
  ghost predicate ForgetAreaMeaning(m: Store, area: Area, protected: Option<Area>, m': Store, count: nat) {
    && (forall k :: k in m' <==> k in m && (AreaIncludes(area, k.subspace, k.path, m[k].timestamp) ==>
          protected.Some? && AreaIncludes(protected.value, k.subspace, k.path, m[k].timestamp)))
    && (forall k | k in m' :: m'[k] == m[k])
    && count + |m'| == |m|
  }

  lemma ForgetEntryMeans(ns: NamespaceId, m: Store, k: Key, expected: Option<nat>)
    ensures var (m', r) := ForgetEntry(m, k, expected);
      ForgetEntryMeaning(ns, m, k, expected, m', r, ForgetEntryOps(ns, m, k, expected))
  {}

  lemma ForgetAreaMeans(m: Store, area: Area, protected: Option<Area>)
    ensures var (m', count) := ForgetArea(m, area, protected);
      ForgetAreaMeaning(m, area, protected, m', count)
  {
    var gone := Forgotten(m, area, protected);
    var rest := m - gone;
    assert m.Keys == rest.Keys + gone && rest.Keys !! gone;
    assert |rest.Keys| == |rest| && |m.Keys| == |m|;
  }

  /** `order` lists the elements of `ks`, each once. */
  predicate Lists(order: seq<Key>, ks: set<Key>): (r: bool)
    ensures r ==> forall k | k in order :: k in ks
  {
    if order == [] then ks == {}
    else
      var init, k := order[..|order| - 1], order[|order| - 1];
      assert order == init + [k];
      k in ks && Lists(init, ks - {k})
  }

  lemma ListsAppend(order: seq<Key>, ks: set<Key>, k: Key)
    requires Lists(order, ks) && k !in ks
    ensures Lists(order + [k], ks + {k})
  {
    assert (order + [k])[..|order|] == order;
    assert ks + {k} - {k} == ks;
  }

  lemma {:induction false} ListsMembers(order: seq<Key>, ks: set<Key>)
    requires Lists(order, ks)
    ensures |order| == |ks|
    ensures forall k :: k in order <==> k in ks
    ensures forall i, j | 0 <= i < j < |order| :: order[i] != order[j]
  {
    if order != [] {
      var init, k := order[..|order| - 1], order[|order| - 1];
      ListsMembers(init, ks - {k});
      assert order == init + [k];
      assert forall i | 0 <= i < |init| :: init[i] in ks - {k};
    }
  }

  lemma {:induction false} ListsConcat(a: seq<Key>, ks: set<Key>, b: seq<Key>, ls: set<Key>)
    requires Lists(a, ks) && Lists(b, ls) && ks !! ls
    ensures Lists(a + b, ks + ls)
  {
    if b == [] {
      assert a + b == a && ks + ls == ks;
    } else {
      var init, k := b[..|b| - 1], b[|b| - 1];
      ListsConcat(a, ks, init, ls - {k});
      assert a + b == (a + init) + [k];
      ListsAppend(a + init, ks + (ls - {k}), k);
      assert ks + (ls - {k}) + {k} == ks + ls;
    }
  }

  function ForgottenOps(ns: NamespaceId, m: Store, order: seq<Key>): seq<QueuedOp>
    requires forall k | k in order :: k in m
  {
    if order == [] then []
    else
      var k := order[|order| - 1];
      ForgottenOps(ns, m, order[..|order| - 1])
        + [ForgottenOp(ns, m, k)]
  }

  function ForgottenOp(ns: NamespaceId, m: Store, k: Key): QueuedOp
    requires k in m
  {
    EntryForgotten(Restore(ns, k, m[k]), m[k].available)
  }

  /** Some records of a store were forgotten in some order, and a log grew by their operations. */
  ghost predicate Reported(ns: NamespaceId, m: Store, gone: set<Key>, order: seq<Key>, before: seq<QueuedOp>, after: seq<QueuedOp>) {
    gone <= m.Keys && Lists(order, gone) && after == before + ForgottenOps(ns, m, order)
  }

  lemma ReportedStep(ns: NamespaceId, m: Store, gone: set<Key>, order: seq<Key>, before: seq<QueuedOp>, after: seq<QueuedOp>, k: Key)
    requires Reported(ns, m, gone, order, before, after) && k in m && k !in gone
    ensures Reported(ns, m, gone + {k}, order + [k], before, after + [ForgottenOp(ns, m, k)])
  {
    ListsAppend(order, gone, k);
    assert (order + [k])[..|order|] == order;
  }

  /** What the reference store puts into the queue when it forgets an area: one operation for each
      forgotten entry, in some order, and one for the area unless nothing was forgotten. */
  ghost predicate IsForgetAreaOps(ns: NamespaceId, m: Store, area: Area, protected: Option<Area>, ops: seq<QueuedOp>) {
    exists order ::
      && Lists(order, Forgotten(m, area, protected))
      && ops == ForgottenOps(ns, m, order) + if order == [] then [] else [AreaForgotten(area, protected)]
  }

  /** After the forgotten entries were reported one by one, the area is reported unless there were none. */
  lemma AreaReported(ns: NamespaceId, m: Store, area: Area, protected: Option<Area>, order: seq<Key>,
                     before: seq<QueuedOp>, after: seq<QueuedOp>) returns (ops: seq<QueuedOp>)
    requires Reported(ns, m, Forgotten(m, area, protected), order, before, after)
    ensures |order| == |Forgotten(m, area, protected)| && IsForgetAreaOps(ns, m, area, protected, ops)
    ensures before + ops == if order == [] then after else after + [AreaForgotten(area, protected)]
  {
    ListsMembers(order, Forgotten(m, area, protected));
    ops := ForgottenOps(ns, m, order) + if order == [] then [] else [AreaForgotten(area, protected)];
  }

  // ---------------------------------------------------------------- reports of payloads

  /** A payload that grows is reported, and one that turns out not to match its digest as forgotten. */
  function AppendOps(ns: NamespaceId, m: Store, k: Key, expected: Option<nat>, bytes: nat, digestMatches: bool): seq<QueuedOp> {
    match AppendTo(m, k, expected, bytes, digestMatches).1
    case Ok(_) => if bytes == 0 then [] else [Appended(Restore(ns, k, m[k]), m[k].available, m[k].available + bytes)]
    case Err(e) => if e.DigestMismatch? then [PayloadForgotten(Restore(ns, k, m[k]), 0)] else []
  }

  /** What appending does: a missing entry, another digest than expected and too many bytes are refused, and
      change nothing. If the payload is then complete but does not match, none of it stays. */
  ghost predicate AppendMeaning(ns: NamespaceId, m: Store, k: Key, expected: Option<nat>, bytes: nat, digestMatches: bool,
                                m': Store, r: Result<bool, PayloadAppendError>, ops: seq<QueuedOp>) {
    if k !in m then r == Err(NoSuchEntry) && m' == m && ops == []
    else
      var a, previous := Restore(ns, k, m[k]), m[k].available;
      var now := previous + bytes;
      if expected.Some? && expected.value != m[k].digest then r == Err(PayloadAppendError.WrongEntry) && m' == m && ops == []
      else
        && (r == Err(TooManyBytes) <==> now > m[k].payloadLength)
        && (r == Err(DigestMismatch) <==> now == m[k].payloadLength && !digestMatches)
        && (r.Err? ==> r.error.TooManyBytes? || r.error.DigestMismatch?)
        && (r.Ok? ==> (r.value <==> now == m[k].payloadLength))
        && (r.Ok? ==> m' == m[k := m[k].(available := now)] && ops == if now > previous then [Appended(a, previous, now)] else [])
        && (r == Err(TooManyBytes) ==> m' == m && ops == [])
        && (r == Err(DigestMismatch) ==> m' == m[k := m[k].(available := 0)] && ops == [PayloadForgotten(a, 0)])
  }

  lemma AppendRefused(ns: NamespaceId, m: Store, k: Key, bytes: nat, digestMatches: bool)
    requires k in m && m[k].available + bytes > m[k].payloadLength
    ensures AppendTo(m, k, None, bytes, digestMatches) == (m, Err(TooManyBytes)) && AppendOps(ns, m, k, None, bytes, digestMatches) == []
  {}

  lemma AppendDiscarded(ns: NamespaceId, m: Store, k: Key, bytes: nat)
    requires k in m && m[k].available + bytes == m[k].payloadLength
    ensures AppendTo(m, k, None, bytes, false) == (m[k := m[k].(available := 0)], Err(DigestMismatch))
    ensures AppendOps(ns, m, k, None, bytes, false) == [PayloadForgotten(Restore(ns, k, m[k]), 0)]
  {}

  lemma AppendKept(ns: NamespaceId, m: Store, k: Key, bytes: nat, digestMatches: bool)
    requires k in m && m[k].available + bytes <= m[k].payloadLength
    requires m[k].available + bytes == m[k].payloadLength ==> digestMatches
    ensures var now := m[k].available + bytes;
      && AppendTo(m, k, None, bytes, digestMatches) == (m[k := m[k].(available := now)], Ok(now == m[k].payloadLength))
      && AppendOps(ns, m, k, None, bytes, digestMatches)
        == if now == m[k].available then [] else [Appended(Restore(ns, k, m[k]), m[k].available, now)]
  {}

  lemma AppendMeans(ns: NamespaceId, m: Store, k: Key, expected: Option<nat>, bytes: nat, digestMatches: bool)
    ensures var (m', r) := AppendTo(m, k, expected, bytes, digestMatches);
      AppendMeaning(ns, m, k, expected, bytes, digestMatches, m', r, AppendOps(ns, m, k, expected, bytes, digestMatches))
  {}

  function ClearedOp(ns: NamespaceId, m: Store, k: Key): QueuedOp
    requires k in m
  {
    PayloadForgotten(Restore(ns, k, m[k]), m[k].available)
  }

  function ClearedOps(ns: NamespaceId, m: Store, order: seq<Key>): seq<QueuedOp>
    requires forall k | k in order :: k in m
  {
    if order == [] then [] else ClearedOps(ns, m, order[..|order| - 1]) + [ClearedOp(ns, m, order[|order| - 1])]
  }

  /** The payloads of some records were forgotten in some order, and a log grew by their operations. */
  ghost predicate ClearedSoFar(ns: NamespaceId, m: Store, gone: set<Key>, order: seq<Key>, before: seq<QueuedOp>, after: seq<QueuedOp>) {
    gone <= m.Keys && Lists(order, gone) && after == before + ClearedOps(ns, m, order)
  }

  lemma ClearedStep(ns: NamespaceId, m: Store, gone: set<Key>, order: seq<Key>, before: seq<QueuedOp>, after: seq<QueuedOp>, k: Key)
    requires ClearedSoFar(ns, m, gone, order, before, after) && k in m && k !in gone
    ensures ClearedSoFar(ns, m, gone + {k}, order + [k], before, after + [ClearedOp(ns, m, k)])
  {
    ListsAppend(order, gone, k);
    assert (order + [k])[..|order|] == order;
  }

  /** One operation for each entry whose payload was forgotten, and one for the area unless there was none. */
  ghost predicate IsForgetAreaPayloadsOps(ns: NamespaceId, m: Store, area: Area, protected: Option<Area>, ops: seq<QueuedOp>) {
    exists order ::
      && Lists(order, Forgotten(m, area, protected))
      && ops == ClearedOps(ns, m, order) + if order == [] then [] else [AreaPayloadsForgotten(area, protected)]
  }

  lemma AreaCleared(ns: NamespaceId, m: Store, area: Area, protected: Option<Area>, order: seq<Key>,
                    before: seq<QueuedOp>, after: seq<QueuedOp>) returns (ops: seq<QueuedOp>)
    requires ClearedSoFar(ns, m, Forgotten(m, area, protected), order, before, after)
    ensures |order| == |Forgotten(m, area, protected)| && IsForgetAreaPayloadsOps(ns, m, area, protected, ops)
    ensures before + ops == if order == [] then after else after + [AreaPayloadsForgotten(area, protected)]
  {
    ListsMembers(order, Forgotten(m, area, protected));
    ops := ClearedOps(ns, m, order) + if order == [] then [] else [AreaPayloadsForgotten(area, protected)];
  }

  // ---------------------------------------------------------------- range intersection

  function Greater(p: Path, q: Path): Path {
    if PathLess(p, q) then q else p
  }

  predicate PathRangesMeet(a: Range<Path>, b: Range<Path>) {
    var start := Greater(a.start, b.start);
    && (a.end.Closed? ==> PathLess(start, a.end.end))
    && (b.end.Closed? ==> PathLess(start, b.end.end))
  }

  predicate SubspaceRangesMeet(a: Range<SubspaceId>, b: Range<SubspaceId>) {
    var start := if BytesLess(a.start, b.start) then b.start else a.start;
    && (a.end.Closed? ==> BytesLess(start, a.end.end))
    && (b.end.Closed? ==> BytesLess(start, b.end.end))
  }

  predicate TimeRangesMeet(a: Range<nat>, b: Range<nat>) {
    var start := if a.start < b.start then b.start else a.start;
    && (a.end.Closed? ==> start < a.end.end)
    && (b.end.Closed? ==> start < b.end.end)
  }

  predicate RangesMeet(a: Range3d, b: Range3d) {
    PathRangesMeet(a.paths, b.paths) && TimeRangesMeet(a.times, b.times)
    && SubspaceRangesMeet(a.subspaces, b.subspaces)
  }

  lemma CommonPointMeets(a: Range3d, b: Range3d, s: SubspaceId, p: Path, t: nat)
    requires RangeIncludes(a, s, p, t) && RangeIncludes(b, s, p, t)
    ensures RangesMeet(a, b)
  {
    forall end | PathLess(p, end)
      ensures PathLess(a.paths.start, end) && PathLess(b.paths.start, end)
    {
      if a.paths.start != p { PathLessTransitive(a.paths.start, p, end); }
      if b.paths.start != p { PathLessTransitive(b.paths.start, p, end); }
    }
    forall end | BytesLess(s, end)
      ensures BytesLess(a.subspaces.start, end) && BytesLess(b.subspaces.start, end)
    {
      if a.subspaces.start != s { LessTransitive(a.subspaces.start, s, end); }
      if b.subspaces.start != s { LessTransitive(b.subspaces.start, s, end); }
    }
  }

  /** Ranges meet exactly if they have an entry in common, wherever that might be. */
  lemma RangesMeetIff(a: Range3d, b: Range3d)
    ensures RangesMeet(a, b) <==> exists s, p, t: nat :: RangeIncludes(a, s, p, t) && RangeIncludes(b, s, p, t)
  {
    if RangesMeet(a, b) {
      var s := if BytesLess(a.subspaces.start, b.subspaces.start) then b.subspaces.start else a.subspaces.start;
      var p := Greater(a.paths.start, b.paths.start);
      var t := if a.times.start < b.times.start then b.times.start else a.times.start;
      LessTotal(a.subspaces.start, b.subspaces.start);
      PathLessTotal(a.paths.start, b.paths.start);
      assert RangeIncludes(a, s, p, t) && RangeIncludes(b, s, p, t);
    }
    if s, p, t: nat :| RangeIncludes(a, s, p, t) && RangeIncludes(b, s, p, t) { CommonPointMeets(a, b, s, p, t); }
  }

  predicate RangeIncludesRange(a: Range3d, b: Range3d) {
    && BytesLeq(a.subspaces.start, b.subspaces.start)
    && (a.subspaces.end.Closed? ==>
          b.subspaces.end.Closed? && BytesLeq(b.subspaces.end.end, a.subspaces.end.end))
    && PathLeq(a.paths.start, b.paths.start)
    && (a.paths.end.Closed? ==> b.paths.end.Closed? && PathLeq(b.paths.end.end, a.paths.end.end))
    && TimesIncludeRange(a.times, b.times)
  }

  lemma PathsWithinIff(a: Range<Path>, b: Range<Path>)
    requires PathsInclude(b, b.start)
    ensures PathLeq(a.start, b.start) && (a.end.Closed? ==> b.end.Closed? && PathLeq(b.end.end, a.end.end)) <==>
      forall p | PathsInclude(b, p) :: PathsInclude(a, p)
  {
    if forall p | PathsInclude(b, p) :: PathsInclude(a, p) {
      assert PathsInclude(a, b.start);
      if a.end.Closed? {
        PathLessIrreflexive(a.end.end);
        assert !PathsInclude(b, a.end.end);
        if b.end.Closed? { PathLessTotal(a.end.end, b.end.end); }
      }
    }
    if PathLeq(a.start, b.start) && (a.end.Closed? ==> b.end.Closed? && PathLeq(b.end.end, a.end.end)) {
      forall p | PathsInclude(b, p) ensures PathsInclude(a, p) {
        if PathLess(a.start, b.start) && PathLess(b.start, p) { PathLessTransitive(a.start, b.start, p); }
        if a.end.Closed? && PathLess(p, b.end.end) && PathLess(b.end.end, a.end.end) { PathLessTransitive(p, b.end.end, a.end.end); }
      }
    }
  }

  lemma SubspacesWithinIff(a: Range<SubspaceId>, b: Range<SubspaceId>)
    requires SubspacesInclude(b, b.start)
    ensures BytesLeq(a.start, b.start) && (a.end.Closed? ==> b.end.Closed? && BytesLeq(b.end.end, a.end.end)) <==>
      forall s | SubspacesInclude(b, s) :: SubspacesInclude(a, s)
  {
    if forall s | SubspacesInclude(b, s) :: SubspacesInclude(a, s) {
      assert SubspacesInclude(a, b.start);
      if a.end.Closed? {
        LessIrreflexive(a.end.end);
        assert !SubspacesInclude(b, a.end.end);
        if b.end.Closed? { LessTotal(a.end.end, b.end.end); }
      }
    }
    if BytesLeq(a.start, b.start) && (a.end.Closed? ==> b.end.Closed? && BytesLeq(b.end.end, a.end.end)) {
      forall s | SubspacesInclude(b, s) ensures SubspacesInclude(a, s) {
        if BytesLess(a.start, b.start) && BytesLess(b.start, s) { LessTransitive(a.start, b.start, s); }
        if a.end.Closed? && BytesLess(s, b.end.end) && BytesLess(b.end.end, a.end.end) { LessTransitive(s, b.end.end, a.end.end); }
      }
    }
  }

  /** A range that holds something lies within another one exactly if everything it holds is there as well. */
  lemma RangeIncludesRangeIff(a: Range3d, b: Range3d)
    requires RangeIncludes(b, b.subspaces.start, b.paths.start, b.times.start)
    ensures RangeIncludesRange(a, b) <==>
      forall s, p, t: nat | RangeIncludes(b, s, p, t) :: RangeIncludes(a, s, p, t)
  {
    PathsWithinIff(a.paths, b.paths);
    SubspacesWithinIff(a.subspaces, b.subspaces);
    if forall s, p, t: nat | RangeIncludes(b, s, p, t) :: RangeIncludes(a, s, p, t) {
      forall p | PathsInclude(b.paths, p) ensures PathsInclude(a.paths, p) {
        assert RangeIncludes(b, b.subspaces.start, p, b.times.start);
      }
      forall s | SubspacesInclude(b.subspaces, s) ensures SubspacesInclude(a.subspaces, s) {
        assert RangeIncludes(b, s, b.paths.start, b.times.start);
      }
      assert RangeIncludes(a, b.subspaces.start, b.paths.start, b.times.start);
      if a.times.end.Closed? && TimesInclude(b.times, a.times.end.end) {
        assert RangeIncludes(b, b.subspaces.start, b.paths.start, a.times.end.end);
      }
    }
  }

  // ---------------------------------------------------------------- events of an operation

  datatype Subscription = Subscription(lim: Limits, width: nat, range: Range3d, ignore: QueryIgnoreParams)

  predicate Covered(sub: Subscription, e: Entry) {
    RangeIncludes(sub.range, e.subspace, e.path, e.timestamp)
  }

  predicate AreaTouches(sub: Subscription, area: Area, protected: Option<Area>)
    requires ValidArea(sub.lim, sub.width, area)
    requires protected.Some? ==> ValidArea(sub.lim, sub.width, protected.value)
  {
    && RangesMeet(RangeFromArea(sub.lim, sub.width, area), sub.range)
    && !(protected.Some? && RangeIncludesRange(RangeFromArea(sub.lim, sub.width, protected.value), sub.range))
  }

  predicate ValidOp(lim: Limits, width: nat, op: QueuedOp) {
    match op
    case Insertion(a, _) => ValidEntry(lim, width, a.entry)
    case Appended(a, _, _) => ValidEntry(lim, width, a.entry)
    case EntryForgotten(a, _) => ValidEntry(lim, width, a.entry)
    case PayloadForgotten(a, _) => ValidEntry(lim, width, a.entry)
    case AreaForgotten(area, protected) =>
      ValidArea(lim, width, area) && (protected.Some? ==> ValidArea(lim, width, protected.value))
    case AreaPayloadsForgotten(area, protected) =>
      ValidArea(lim, width, area) && (protected.Some? ==> ValidArea(lim, width, protected.value))
  }

  /** An operation of a store of that namespace. */
  predicate OpOf(lim: Limits, width: nat, ns: NamespaceId, op: QueuedOp) {
    ValidOp(lim, width, op) && (op.Insertion? || op.Appended? ==> op.entry.entry.namespaceId == ns)
  }

  predicate EventIn(ns: NamespaceId, event: StoreEvent) {
    event.IngestedEvent? ==> event.entry.entry.namespaceId == ns
  }

  /** The events that one queued operation causes for a subscription, in order. */
  function EventsOf(sub: Subscription, op: QueuedOp): (events: seq<StoreEvent>)
    requires ValidOp(sub.lim, sub.width, op)
  {
    match op
    case Appended(a, previous, now) =>
      if !Covered(sub, a.entry) || IgnoresLengthy(sub.ignore, a.entry.payloadLength, now) then []
      else if sub.ignore.ignoreIncompletePayloads then
        [IngestedEvent(a, Local), AppendedEvent(a, previous, now)]
      else [AppendedEvent(a, previous, now)]
    case AreaForgotten(area, protected) =>
      if AreaTouches(sub, area, protected) then [AreaForgottenEvent(area, protected)] else []
    case AreaPayloadsForgotten(area, protected) =>
      if AreaTouches(sub, area, protected) then [AreaPayloadsForgottenEvent(area, protected)] else []
    case EntryForgotten(a, available) =>
      if Covered(sub, a.entry) && !IgnoresLengthy(sub.ignore, a.entry.payloadLength, available)
      then [EntryForgottenEvent(a)] else []
    case Insertion(a, origin) =>
      if Covered(sub, a.entry) then
        if IgnoresFresh(sub.ignore, a.entry) then [PruneAlertEvent(a)]
        else [PruneAlertEvent(a), IngestedEvent(a, origin)]
      else if CouldPruneIn(sub.range, a.entry.subspace, a.entry.path, a.entry.timestamp) then
        [PruneAlertEvent(a)]
      else []
    case PayloadForgotten(a, available) =>
      if Covered(sub, a.entry) && !IgnoresLengthy(sub.ignore, a.entry.payloadLength, available)
      then [PayloadForgottenEvent(a)] else []
  }

  /** An insertion is alerted about if the entry lies in the range or may prune into it, and reported if it
      lies there and is not ignored. */
  lemma InsertionReportedIff(sub: Subscription, a: AuthorisedEntry, origin: EntryOrigin)
    requires ValidOp(sub.lim, sub.width, Insertion(a, origin))
    ensures var e, r := a.entry, sub.range;
      var inside := RangeIncludes(r, e.subspace, e.path, e.timestamp);
      var near := PathsInclude(r.paths, e.path) || e.path <= r.paths.start || r.paths.start <= e.path;
      var alerted := inside || (SubspacesInclude(r.subspaces, e.subspace) && r.times.start <= e.timestamp && near);
      var reported := inside && (e.payloadLength == 0 ==> !sub.ignore.ignoreEmptyPayloads)
        && (e.payloadLength > 0 ==> !sub.ignore.ignoreIncompletePayloads);
      EventsOf(sub, Insertion(a, origin)) == (if alerted then [PruneAlertEvent(a)] else []) + if reported then [IngestedEvent(a, origin)] else []
  {}

  /** A forgotten area is reported if its range has an entry in common with the subscribed one, which does
      not lie within the range of the protected area. */
  lemma AreaReportedIff(sub: Subscription, area: Area, protected: Option<Area>)
    requires ValidOp(sub.lim, sub.width, AreaForgotten(area, protected))
    ensures var r, p := RangeFromArea(sub.lim, sub.width, area), sub.range;
      var touched := (exists s, q, t: nat :: RangeIncludes(r, s, q, t) && RangeIncludes(p, s, q, t))
        && !(protected.Some? && RangeIncludesRange(RangeFromArea(sub.lim, sub.width, protected.value), p));
      && EventsOf(sub, AreaForgotten(area, protected)) == (if touched then [AreaForgottenEvent(area, protected)] else [])
      && EventsOf(sub, AreaPayloadsForgotten(area, protected)) == if touched then [AreaPayloadsForgottenEvent(area, protected)] else []
  {
    RangesMeetIff(RangeFromArea(sub.lim, sub.width, area), sub.range);
  }
}
