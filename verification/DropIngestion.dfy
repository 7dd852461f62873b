/** Ingesting a drop: every entry is ingested, and its payload appended, in the order of the drop. */
module DropIngestion {
  import opened Wrappers
  import opened ByteStrings
  import opened Entries
  import opened PathEncodings
  import opened StoreEvents
  import opened ControlStores
  import opened Convergence
  import opened Drops

  function PlaceOf(item: Item): Key {
    KeyOf(item.entry.entry)
  }

  function RecordOf(item: Item): Record {
    FreshRecord(item.entry).(available := |PayloadOf(item)|)
  }

  predicate PayloadMatches(hash: Hash, item: Item) {
    item.payload.Some? ==> hash(item.payload.value) == item.entry.entry.digest
  }

  function EntriesOf(items: seq<Item>): seq<AuthorisedEntry> {
    seq(|items|, i requires 0 <= i < |items| => items[i].entry)
  }

  /** Ingest an entry, and append its payload if it came with one. */
  ghost function IngestItem(hash: Hash, ns: NamespaceId, m: Store, item: Item): Result<Store, PayloadAppendError> {
    var e, m' := item.entry.entry, Ingest(ns, m, item.entry, false).0;
    if item.payload.None? then Ok(m') else AppendPayload(hash, m', KeyOf(e), e.digest, item.payload.value)
  }

  /** Ingesting some items one after the other. */
  ghost function IngestInto(hash: Hash, ns: NamespaceId, m: Store, items: seq<Item>): Result<Store, PayloadAppendError> {
    if items == [] then Ok(m)
    else
      var before := IngestInto(hash, ns, m, items[..|items| - 1]);
      if before.Err? then before else IngestItem(hash, ns, before.value, items[|items| - 1])
  }

  lemma IngestOneMore(hash: Hash, ns: NamespaceId, m: Store, items: seq<Item>, item: Item)
    requires IngestInto(hash, ns, m, items).Ok?
    ensures IngestInto(hash, ns, m, items + [item]) == IngestItem(hash, ns, IngestInto(hash, ns, m, items).value, item)
  {
    assert (items + [item])[..|items|] == items;
  }

  /** Once an item is refused, so is everything that begins with the same items. */
  lemma {:induction false} RefusedFromThen(hash: Hash, ns: NamespaceId, m: Store, items: seq<Item>, more: seq<Item>)
    requires IngestInto(hash, ns, m, items).Err?
    ensures IngestInto(hash, ns, m, items + more) == IngestInto(hash, ns, m, items)
    decreases |more|
  {
    if more == [] {
      assert items + more == items;
    } else {
      RefusedFromThen(hash, ns, m, items, more[..|more| - 1]);
      assert (items + more)[..|items + more| - 1] == items + more[..|more| - 1];
    }
  }

  /** The same entries, whatever is there of their payloads. */
  ghost predicate SameEntries(m: Store, m': Store) {
    m.Keys == m'.Keys && forall k | k in m :: m'[k] == m[k].(available := m'[k].available)
  }

  lemma IngestSameEntries(ns: NamespaceId, m: Store, m': Store, a: AuthorisedEntry)
    requires SameEntries(m, m')
    ensures SameEntries(Ingest(ns, m, a, false).0, Ingest(ns, m', a, false).0)
  {
    assert Blockers(m, a.entry) == Blockers(m', a.entry);
    assert Prunable(m, a.entry) == Prunable(m', a.entry);
  }

  /** Payloads have no influence on which entries a store ends up with. */
  lemma {:induction false} IngestIntoEmpty(hash: Hash, ns: NamespaceId, items: seq<Item>)
    requires IngestInto(hash, ns, map[], items).Ok?
    ensures SameEntries(IngestAll(ns, EntriesOf(items)), IngestInto(hash, ns, map[], items).value)
  {
    if items != [] {
      var init, item := items[..|items| - 1], items[|items| - 1];
      IngestIntoEmpty(hash, ns, init);
      assert EntriesOf(items)[..|items| - 1] == EntriesOf(init);
      IngestSameEntries(ns, IngestAll(ns, EntriesOf(init)), IngestInto(hash, ns, map[], init).value, item.entry);
    }
  }

  lemma SameContents(ns: NamespaceId, m: Store, m': Store)
    requires SameEntries(m, m')
    ensures Contents(ns, m) == Contents(ns, m')
  {
    assert forall k | k in m :: Restore(ns, k, m[k]) == Restore(ns, k, m'[k]);
  }

  /** An empty store that ingests a drop ends up with the entries that no other entry of the drop prunes,
      in whatever order the drop lists them. */
  lemma DropConverges(hash: Hash, ns: NamespaceId, items: seq<Item>)
    requires OneNamespace(ns, Elements(EntriesOf(items))) && NoUnprunedTies(Elements(EntriesOf(items)))
    requires IngestInto(hash, ns, map[], items).Ok?
    ensures Contents(ns, IngestInto(hash, ns, map[], items).value) == Unpruned(Elements(EntriesOf(items)))
  {
    IngestIntoEmpty(hash, ns, items);
    SameContents(ns, IngestAll(ns, EntriesOf(items)), IngestInto(hash, ns, map[], items).value);
    IngestionConverges(ns, EntriesOf(items));
  }

  /** An entry that the store does not obsolete is refused exactly if its payload is not the one it names. */
  lemma UnblockedItemIff(hash: Hash, ns: NamespaceId, m: Store, item: Item)
    requires ProperItem(ns, item) && Blockers(m, item.entry.entry) == {}
    ensures IngestItem(hash, ns, m, item).Ok? <==> PayloadMatches(hash, item)
    ensures PayloadMatches(hash, item) ==>
      IngestItem(hash, ns, m, item).value == Prune(m, item.entry.entry)[PlaceOf(item) := RecordOf(item)]
  {}

  /** The payload of an item can be appended to a record: it names the same digest, nothing of its
      payload is there yet, and what is to come fits. */
  predicate Takes(hash: Hash, r: Record, item: Item) {
    var n := |PayloadOf(item)|;
    && r.digest == item.entry.entry.digest && r.available == 0 && n <= r.payloadLength
    && (n == r.payloadLength ==> hash(PayloadOf(item)) == r.digest)
  }

  /** An obsolete entry that comes with its payload is refused, unless the store holds another entry at
      the same place that takes this payload. */
  lemma ObsoleteItemIff(hash: Hash, ns: NamespaceId, m: Store, item: Item)
    requires Blockers(m, item.entry.entry) != {} && item.payload.Some?
    ensures var k, r, n := PlaceOf(item), IngestItem(hash, ns, m, item), |item.payload.value|;
      && (r.Ok? <==> k in m && Takes(hash, m[k], item))
      && (r.Ok? ==> r.value == m[k := m[k].(available := n)])
      && (k !in m ==> r == Err(NoSuchEntry))
      && (k in m && m[k].digest != item.entry.entry.digest ==> r == Err(PayloadAppendError.WrongEntry))
      && (r == Err(IncorrectAvailableLength) ==> m[k].available > 0)
      && (r == Err(TooManyBytes) ==> n > m[k].payloadLength)
      && (r == Err(DigestMismatch) ==> n == m[k].payloadLength)
  {}

  /** Without its payload, an obsolete entry changes nothing. */
  lemma ObsoleteWithoutPayload(hash: Hash, ns: NamespaceId, m: Store, item: Item)
    requires Blockers(m, item.entry.entry) != {} && item.payload.None?
    ensures IngestItem(hash, ns, m, item) == Ok(m)
  {}

  // ---------------------------------------------------------------- which drops are ingested

  predicate PrunedByAny(before: seq<Item>, x: Item) {
    exists q :: 0 <= q < |before| && IsPrunedBy(x.entry.entry, before[q].entry.entry)
  }

  /** An item is obsolete by what the store held at first, or by an item listed before it. */
  predicate Obsolete(first: Store, before: seq<Item>, x: Item) {
    Blockers(first, x.entry.entry) != {} || PrunedByAny(before, x)
  }

  /** What is held at a place after some items: an item that is not obsolete takes its place and empties
      the places of what it replaces, an obsolete one only brings its payload. */
  function HeldAt(first: Store, items: seq<Item>, k: Key): Option<Record> {
    if items == [] then
      if k in first then Some(first[k]) else None
    else
      var before, x := items[..|items| - 1], items[|items| - 1];
      var held := HeldAt(first, before, k);
      if Obsolete(first, before, x) then
        if held.Some? && PlaceOf(x) == k then Some(Extended(held.value, |PayloadOf(x)|)) else held
      else if PlaceOf(x) == k then Some(RecordOf(x))
      else if held.Some? && Replaces(x.entry.entry, k, held.value) then None
      else held
  }

  function Extended(r: Record, n: nat): Record {
    r.(available := r.available + n)
  }

  /** Whether an item is ingested after others: an obsolete one that comes with its payload, only if
      what is held at its place takes that payload; any other one, only if its payload matches. */
  predicate Acceptable(hash: Hash, first: Store, before: seq<Item>, x: Item) {
    if x.payload.None? then true
    else if !Obsolete(first, before, x) then PayloadMatches(hash, x)
    else HeldAt(first, before, PlaceOf(x)).Some? && Takes(hash, HeldAt(first, before, PlaceOf(x)).value, x)
  }

  predicate AllAcceptable(hash: Hash, first: Store, items: seq<Item>) {
    forall i | 0 <= i < |items| :: Acceptable(hash, first, items[..i], items[i])
  }

  predicate ProperItems(ns: NamespaceId, items: seq<Item>) {
    forall i | 0 <= i < |items| :: ProperItem(ns, items[i])
  }

  /** Some record is at a prefix of an entry and not older. */
  predicate Tops(k: Key, r: Record, e: Entry) {
    && k.subspace == e.subspace && k.path <= e.path
    && !NewerRank(e.timestamp, e.digest, e.payloadLength, r.timestamp, r.digest, r.payloadLength)
  }

  ghost predicate Topped(m: Store, e: Entry) {
    exists k :: k in m && Tops(k, m[k], e)
  }

  function EntryAt(ns: NamespaceId, m: Store, k: Key): Entry
    requires k in m
  {
    Restore(ns, k, m[k]).entry
  }

  /** Nothing is ever forgotten without something that tops it. */
  ghost predicate AllTopped(ns: NamespaceId, first: Store, m: Store, items: seq<Item>) {
    && (forall q | 0 <= q < |items| :: Topped(m, items[q].entry.entry))
    && (forall k | k in first :: Topped(m, EntryAt(ns, first, k)))
  }

  lemma HeldAtSnoc(first: Store, items: seq<Item>, x: Item, k: Key)
    ensures HeldAt(first, items + [x], k) ==
      var held := HeldAt(first, items, k);
      if Obsolete(first, items, x) then
        if held.Some? && PlaceOf(x) == k then Some(Extended(held.value, |PayloadOf(x)|)) else held
      else if PlaceOf(x) == k then Some(RecordOf(x))
      else if held.Some? && Replaces(x.entry.entry, k, held.value) then None
      else held
  {
    assert (items + [x])[..|items|] == items;
  }

  // ---------------------------------------------------------------- what is held, said by the list alone

  /** An item that was not obsolete when it came, and that nothing listed later dominates. */
  predicate IsHeld(first: Store, items: seq<Item>, j: int) {
    && 0 <= j < |items| && !Obsolete(first, items[..j], items[j])
    && forall l | j < l < |items| :: !DominatedBy(items[j].entry.entry, items[l].entry.entry)
  }

  /** A record of the first store that no item replaces; an obsolete one replaces nothing. */
  predicate Remains(first: Store, items: seq<Item>, k: Key) {
    k in first && forall l | 0 <= l < |items| :: Replaces(items[l].entry.entry, k, first[k]) ==> Obsolete(first, items[..l], items[l])
  }

  /** How many bytes the items from some index on bring to a place. */
  function Brought(items: seq<Item>, from: nat, k: Key): nat {
    if |items| <= from then 0
    else
      var last := items[|items| - 1];
      Brought(items[..|items| - 1], from, k) + if PlaceOf(last) == k then |PayloadOf(last)| else 0
  }

  lemma HeldSnoc(first: Store, items: seq<Item>, x: Item, j: nat)
    requires j < |items|
    ensures IsHeld(first, items + [x], j) <==> IsHeld(first, items, j) && !DominatedBy(items[j].entry.entry, x.entry.entry)
  {
    var all := items + [x];
    assert all[|items|] == x && all[..j] == items[..j] && forall l | 0 <= l < |items| :: all[l] == items[l];
  }

  lemma RemainsSnoc(first: Store, items: seq<Item>, x: Item, k: Key)
    ensures Remains(first, items + [x], k) <==>
      Remains(first, items, k) && (Replaces(x.entry.entry, k, first[k]) ==> Obsolete(first, items, x))
  {
    var all := items + [x];
    assert all[|items|] == x && all[..|items|] == items;
    forall l | 0 <= l < |items| ensures all[l] == items[l] && all[..l] == items[..l] {}
  }

  /** An item that is held is what is found at its place, with all that was brought since. */
  lemma {:induction false} HeldIsFound(ns: NamespaceId, first: Store, items: seq<Item>, j: nat)
    requires IsHeld(first, items, j) && ProperItems(ns, items)
    ensures HeldAt(first, items, PlaceOf(items[j])) == Some(FreshRecord(items[j].entry).(available := Brought(items, j, PlaceOf(items[j]))))
    decreases |items|
  {
    var n := |items| - 1;
    var init, x, k := items[..n], items[n], PlaceOf(items[j]);
    assert items == init + [x];
    HeldAtSnoc(first, init, x, k);
    if j < n {
      HeldSnoc(first, init, x, j);
      HeldIsFound(ns, first, init, j);
      if PlaceOf(x) == k { assert IsPrunedBy(x.entry.entry, init[j].entry.entry); }
    } else {
      assert Brought(init, n, k) == 0;
    }
  }

  /** A record that remains is found where it was, with all that was brought. */
  lemma {:induction false} RemainingIsFound(first: Store, items: seq<Item>, k: Key)
    requires Remains(first, items, k)
    ensures HeldAt(first, items, k) == Some(Extended(first[k], Brought(items, 0, k)))
    decreases |items|
  {
    if items != [] {
      var n := |items| - 1;
      var init, x := items[..n], items[n];
      assert items == init + [x];
      HeldAtSnoc(first, init, x, k);
      RemainsSnoc(first, init, x, k);
      RemainingIsFound(first, init, k);
      if PlaceOf(x) == k && !Replaces(x.entry.entry, k, first[k]) { assert k in Blockers(first, x.entry.entry); }
    }
  }

  /** Whatever is found is a record that remains, or an item that is held. */
  lemma {:induction false} FoundIsHeld(ns: NamespaceId, first: Store, items: seq<Item>, k: Key) returns (j: int)
    requires HeldAt(first, items, k).Some? && ProperItems(ns, items)
    ensures if j == -1 then Remains(first, items, k) else IsHeld(first, items, j) && k == PlaceOf(items[j])
    decreases |items|
  {
    if items == [] { return -1; }
    var n := |items| - 1;
    var init, x := items[..n], items[n];
    assert items == init + [x];
    HeldAtSnoc(first, init, x, k);
    if !Obsolete(first, init, x) && PlaceOf(x) == k {
      assert items[..n] == init;
      return n;
    }
    j := FoundIsHeld(ns, first, init, k);
    if j == -1 {
      RemainsSnoc(first, init, x, k);
      RemainingIsFound(first, init, k);
    } else {
      HeldSnoc(first, init, x, j);
      HeldIsFound(ns, first, init, j);
      if Obsolete(first, init, x) && DominatedBy(init[j].entry.entry, x.entry.entry) { ObsoleteDominates(ns, first, init, x, j); }
    }
  }

  /** An obsolete item dominates only what is not held. */
  lemma ObsoleteDominates(ns: NamespaceId, first: Store, items: seq<Item>, x: Item, j: nat)
    requires ProperItems(ns, items) && ProperItem(ns, x) && j < |items|
    requires Obsolete(first, items, x) && DominatedBy(items[j].entry.entry, x.entry.entry)
    ensures !IsHeld(first, items, j)
  {
    var e, x' := items[j].entry.entry, x.entry.entry;
    if Blockers(first, x') != {} {
      var k :| k in Blockers(first, x');
      PrefixTransitive(k.path, x'.path, e.path);
      assert k in Blockers(first, e);
    } else {
      var q :| 0 <= q < |items| && IsPrunedBy(x', items[q].entry.entry);
      PruneTransitive(e, x', items[q].entry.entry);
      if q < j { assert items[..j][q] == items[q]; }
    }
  }

  // ---------------------------------------------------------------- the store against the list

  /** The store holds what the list says, place by place. */
  ghost predicate HoldsHeld(first: Store, m: Store, items: seq<Item>) {
    forall k :: HeldAt(first, items, k) == if k in m then Some(m[k]) else None
  }

  /** Exactly the obsolete items find a newer entry in the store. */
  lemma BlockedIff(ns: NamespaceId, first: Store, m: Store, items: seq<Item>, x: Item)
    requires HoldsHeld(first, m, items) && AllTopped(ns, first, m, items) && ProperItems(ns, items) && ProperItem(ns, x)
    ensures Blockers(m, x.entry.entry) != {} <==> Obsolete(first, items, x)
  {
    var e := x.entry.entry;
    if Blockers(m, e) != {} {
      var k :| k in Blockers(m, e);
      BlockerKnown(ns, first, m[k], items, x, k);
    }
    if Blockers(first, e) != {} {
      var k :| k in Blockers(first, e);
      TopBlocks(m, EntryAt(ns, first, k), e);
    }
    if PrunedByAny(items, x) {
      var q :| 0 <= q < |items| && IsPrunedBy(e, items[q].entry.entry);
      TopBlocks(m, items[q].entry.entry, e);
    }
  }

  lemma BlockerKnown(ns: NamespaceId, first: Store, r: Record, items: seq<Item>, x: Item, k: Key)
    requires HeldAt(first, items, k) == Some(r) && ProperItems(ns, items) && ProperItem(ns, x) && Blocks(k, r, x.entry.entry)
    ensures Obsolete(first, items, x)
  {
    var j := FoundIsHeld(ns, first, items, k);
    if j == -1 {
      RemainingIsFound(first, items, k);
      assert k in Blockers(first, x.entry.entry);
    } else {
      HeldIsFound(ns, first, items, j);
      assert IsPrunedBy(x.entry.entry, items[j].entry.entry);
    }
  }

  lemma TopBlocks(m: Store, q: Entry, e: Entry)
    requires Topped(m, q) && IsPrunedBy(e, q)
    ensures Blockers(m, e) != {}
  {
    var k :| k in m && Tops(k, m[k], q);
    PrefixTransitive(k.path, q.path, e.path);
    assert k in Blockers(m, e);
  }

  // ---------------------------------------------------------------- one more item

  lemma TopsTransitive(k: Key, r: Record, e: Entry, k': Key, r': Record)
    requires Tops(k, r, e) && Tops(k', r', Entry(e.namespaceId, k.subspace, k.path, r.timestamp, r.payloadLength, r.digest))
    ensures Tops(k', r', e)
  {
    PrefixTransitive(k'.path, k.path, e.path);
  }

  lemma ToppedAfterInsertion(m: Store, x: Item, e: Entry)
    requires Blockers(m, x.entry.entry) == {} && (Topped(m, e) || e == x.entry.entry)
    ensures Topped(Prune(m, x.entry.entry)[PlaceOf(x) := RecordOf(x)], e)
  {
    var m' := Prune(m, x.entry.entry)[PlaceOf(x) := RecordOf(x)];
    assert Tops(PlaceOf(x), RecordOf(x), x.entry.entry);
    if e == x.entry.entry {
      assert PlaceOf(x) in m';
    } else {
      var k :| k in m && Tops(k, m[k], e);
      assert k !in Blockers(m, x.entry.entry);
      if k in Prunable(m, x.entry.entry) || k == PlaceOf(x) {
        TopsTransitive(k, m[k], e, PlaceOf(x), RecordOf(x));
        assert PlaceOf(x) in m';
      } else {
        assert k in m' && m'[k] == m[k];
      }
    }
  }

  lemma AllToppedAfterInsertion(ns: NamespaceId, first: Store, m: Store, items: seq<Item>, x: Item)
    requires AllTopped(ns, first, m, items) && Blockers(m, x.entry.entry) == {}
    ensures AllTopped(ns, first, Prune(m, x.entry.entry)[PlaceOf(x) := RecordOf(x)], items + [x])
  {
    var all, m' := items + [x], Prune(m, x.entry.entry)[PlaceOf(x) := RecordOf(x)];
    forall q | 0 <= q < |all| ensures Topped(m', all[q].entry.entry) {
      assert q < |items| ==> all[q] == items[q];
      ToppedAfterInsertion(m, x, all[q].entry.entry);
    }
    forall k | k in first ensures Topped(m', EntryAt(ns, first, k)) { ToppedAfterInsertion(m, x, EntryAt(ns, first, k)); }
  }

  lemma HeldAfterInsertion(first: Store, m: Store, items: seq<Item>, x: Item)
    requires HoldsHeld(first, m, items) && Blockers(m, x.entry.entry) == {} && !Obsolete(first, items, x)
    ensures HoldsHeld(first, Prune(m, x.entry.entry)[PlaceOf(x) := RecordOf(x)], items + [x])
  {
    var m' := Prune(m, x.entry.entry)[PlaceOf(x) := RecordOf(x)];
    forall k ensures HeldAt(first, items + [x], k) == if k in m' then Some(m'[k]) else None {
      HeldAtSnoc(first, items, x, k);
    }
  }

  lemma HeldAfterObsolete(first: Store, m: Store, items: seq<Item>, x: Item, m': Store)
    requires HoldsHeld(first, m, items) && Obsolete(first, items, x)
    requires if x.payload.None? then m' == m else BringsPayload(m, x, m')
    ensures HoldsHeld(first, m', items + [x])
  {
    forall k ensures HeldAt(first, items + [x], k) == if k in m' then Some(m'[k]) else None {
      HeldAtSnoc(first, items, x, k);
    }
  }

  /** The payload is appended to the record at the place of the item. */
  ghost predicate BringsPayload(m: Store, x: Item, m': Store) {
    var k := PlaceOf(x);
    k in m && m[k].available == 0 && m' == m[k := m[k].(available := |PayloadOf(x)|)]
  }

  lemma AllToppedAfterObsolete(ns: NamespaceId, first: Store, m: Store, items: seq<Item>, x: Item, m': Store)
    requires AllTopped(ns, first, m, items) && Blockers(m, x.entry.entry) != {}
    requires if x.payload.None? then m' == m else BringsPayload(m, x, m')
    ensures AllTopped(ns, first, m', items + [x])
  {
    var all := items + [x];
    var k :| k in Blockers(m, x.entry.entry);
    assert Tops(k, m[k], x.entry.entry);
    forall q | 0 <= q < |all| ensures Topped(m', all[q].entry.entry) {
      assert q < |items| ==> all[q] == items[q];
      StillTopped(m, x, m', all[q].entry.entry);
    }
    forall j | j in first ensures Topped(m', EntryAt(ns, first, j)) { StillTopped(m, x, m', EntryAt(ns, first, j)); }
  }

  lemma StillTopped(m: Store, x: Item, m': Store, e: Entry)
    requires Topped(m, e) && if x.payload.None? then m' == m else BringsPayload(m, x, m')
    ensures Topped(m', e)
  {
    var k :| k in m && Tops(k, m[k], e);
    assert k in m' && Tops(k, m'[k], e);
  }

  /** The store after some items, and what becomes of the next one. */
  lemma NextItem(hash: Hash, ns: NamespaceId, first: Store, m: Store, items: seq<Item>, x: Item)
    requires HoldsHeld(first, m, items) && AllTopped(ns, first, m, items) && ProperItems(ns, items) && ProperItem(ns, x)
    ensures var r := IngestItem(hash, ns, m, x);
      && (r.Ok? <==> Acceptable(hash, first, items, x))
      && (r.Ok? ==> HoldsHeld(first, r.value, items + [x]) && AllTopped(ns, first, r.value, items + [x]))
  {
    BlockedIff(ns, first, m, items, x);
    var r := IngestItem(hash, ns, m, x);
    if Blockers(m, x.entry.entry) == {} {
      UnblockedItemIff(hash, ns, m, x);
      HeldAfterInsertion(first, m, items, x);
      AllToppedAfterInsertion(ns, first, m, items, x);
    } else if x.payload.None? {
      ObsoleteWithoutPayload(hash, ns, m, x);
      HeldAfterObsolete(first, m, items, x, m);
      AllToppedAfterObsolete(ns, first, m, items, x, m);
    } else {
      ObsoleteItemIff(hash, ns, m, x);
      if r.Ok? {
        HeldAfterObsolete(first, m, items, x, r.value);
        AllToppedAfterObsolete(ns, first, m, items, x, r.value);
      }
    }
  }

  lemma OneMoreAcceptable(hash: Hash, ns: NamespaceId, first: Store, items: seq<Item>, x: Item)
    ensures AllAcceptable(hash, first, items + [x]) <==> AllAcceptable(hash, first, items) && Acceptable(hash, first, items, x)
    ensures ProperItems(ns, items + [x]) <==> ProperItems(ns, items) && ProperItem(ns, x)
  {
    var all := items + [x];
    assert all[|items|] == x && all[..|items|] == items;
    forall i | 0 <= i < |items| ensures all[i] == items[i] && all[..i] == items[..i] {}
  }

  lemma NothingIngested(ns: NamespaceId, first: Store)
    ensures HoldsHeld(first, first, []) && AllTopped(ns, first, first, [])
  {
    forall k | k in first ensures Topped(first, EntryAt(ns, first, k)) {
      assert Tops(k, first[k], EntryAt(ns, first, k));
    }
  }

  /** Every drop, into every store: it is ingested as a whole if and only if all its items are
      acceptable, and then the store holds precisely what the list says. */
  lemma {:induction false} DropIngestedIff(hash: Hash, ns: NamespaceId, first: Store, items: seq<Item>)
    requires ProperItems(ns, items)
    ensures IngestInto(hash, ns, first, items).Ok? <==> AllAcceptable(hash, first, items)
    ensures var r := IngestInto(hash, ns, first, items);
      r.Ok? ==> HoldsHeld(first, r.value, items) && AllTopped(ns, first, r.value, items)
    decreases |items|
  {
    if items == [] {
      NothingIngested(ns, first);
    } else {
      var init, x := items[..|items| - 1], items[|items| - 1];
      assert items == init + [x];
      OneMoreAcceptable(hash, ns, first, init, x);
      DropIngestedIff(hash, ns, first, init);
      var before := IngestInto(hash, ns, first, init);
      if before.Ok? { NextItem(hash, ns, first, before.value, init, x); }
    }
  }

  /** An item that an earlier one at the same place prunes names another digest than that one. */
  predicate DigestsTell(items: seq<Item>) {
    forall i, j | 0 <= j < i < |items| && PlaceOf(items[i]) == PlaceOf(items[j])
      && IsPrunedBy(items[i].entry.entry, items[j].entry.entry) :: items[i].entry.entry.digest != items[j].entry.entry.digest
  }

  /** As long as digests tell entries apart, a drop is ingested into an empty store if and only if no item
      that comes with its payload follows one that prunes it, and all payloads match. */
  lemma EmptyStoreIngestsIff(hash: Hash, ns: NamespaceId, items: seq<Item>)
    requires ProperItems(ns, items) && DigestsTell(items)
    ensures IngestInto(hash, ns, map[], items).Ok? <==>
      forall i | 0 <= i < |items| && items[i].payload.Some? :: PayloadMatches(hash, items[i]) && !PrunedByAny(items[..i], items[i])
  {
    DropIngestedIff(hash, ns, map[], items);
    forall i | 0 <= i < |items| && items[i].payload.Some? && PrunedByAny(items[..i], items[i])
      ensures !Acceptable(hash, map[], items[..i], items[i])
    {
      NothingTakesIt(hash, ns, items, i);
    }
  }

  lemma NothingTakesIt(hash: Hash, ns: NamespaceId, items: seq<Item>, i: nat)
    requires ProperItems(ns, items) && DigestsTell(items) && i < |items| && items[i].payload.Some? && PrunedByAny(items[..i], items[i])
    ensures !Acceptable(hash, map[], items[..i], items[i])
  {
    var before, x := items[..i], items[i];
    var held := HeldAt(map[], before, PlaceOf(x));
    if held.Some? {
      var j := FoundIsHeld(ns, map[], before, PlaceOf(x));
      HeldIsFound(ns, map[], before, j);
      if DominatedBy(before[j].entry.entry, x.entry.entry) { ObsoleteDominates(ns, map[], before, x, j); }
      assert before[j] == items[j] && IsPrunedBy(x.entry.entry, items[j].entry.entry);
    }
  }

  /** Without that, a drop is ingested although an obsolete entry comes with its payload: the newer
      entry at the same place has the same payload, which did not come with it. */
  lemma SameDigestIngested(hash: Hash, ns: NamespaceId, newer: Item, older: Item)
    requires ProperItem(ns, newer) && ProperItem(ns, older) && PayloadMatches(hash, older)
    requires PlaceOf(newer) == PlaceOf(older) && newer.entry.entry.timestamp > older.entry.entry.timestamp
    requires newer.entry.entry.digest == older.entry.entry.digest && newer.entry.entry.payloadLength == older.entry.entry.payloadLength
    requires newer.payload.None? && older.payload.Some?
    ensures IsPrunedBy(older.entry.entry, newer.entry.entry)
    ensures IngestInto(hash, ns, map[], [newer, older]) == Ok(map[PlaceOf(newer) := FreshRecord(newer.entry).(available := |older.payload.value|)])
  {
    TwoItems(hash, ns, newer, older);
    var m := IngestItem(hash, ns, map[], newer).value;
    assert m == map[PlaceOf(newer) := FreshRecord(newer.entry)];
    assert PlaceOf(newer) in Blockers(m, older.entry.entry);
    ObsoleteItemIff(hash, ns, m, older);
    assert PayloadOf(older) == older.payload.value && Takes(hash, m[PlaceOf(older)], older);
    assert IngestItem(hash, ns, m, older).value == map[PlaceOf(newer) := FreshRecord(newer.entry).(available := |older.payload.value|)];
  }

  lemma TwoItems(hash: Hash, ns: NamespaceId, x: Item, y: Item)
    ensures var first := IngestItem(hash, ns, map[], x);
      IngestInto(hash, ns, map[], [x, y]) == if first.Err? then first else IngestItem(hash, ns, first.value, y)
  {
    assert [x, y][..1] == [x] && [x][..0] == [];
    assert IngestInto(hash, ns, map[], [x][..0]) == Ok(map[]);
    assert IngestInto(hash, ns, map[], [x]) == IngestItem(hash, ns, map[], x);
  }

  /** A newer entry at a proper prefix: listed after the entry that it prunes, both are ingested; listed
      before it, the drop is refused. */
  lemma OrderDecides(hash: Hash, ns: NamespaceId, newer: Item, older: Item)
    requires ProperItem(ns, newer) && ProperItem(ns, older) && PayloadMatches(hash, newer) && PayloadMatches(hash, older)
    requires IsPrunedBy(older.entry.entry, newer.entry.entry) && older.entry.entry.path != newer.entry.entry.path
    requires older.payload.Some?
    ensures IngestInto(hash, ns, map[], [older, newer]).Ok?
    ensures IngestInto(hash, ns, map[], [newer, older]) == Err(NoSuchEntry)
  {
    TwoItems(hash, ns, older, newer);
    TwoItems(hash, ns, newer, older);
    UnblockedItemIff(hash, ns, map[], older);
    UnblockedItemIff(hash, ns, map[], newer);
    var m, m' := IngestItem(hash, ns, map[], newer).value, IngestItem(hash, ns, map[], older).value;
    assert m.Keys == {PlaceOf(newer)} && m'.Keys == {PlaceOf(older)};
    assert Blockers(m', newer.entry.entry) == {};
    assert PlaceOf(newer) in Blockers(m, older.entry.entry);
    ObsoleteItemIff(hash, ns, m, older);
    UnblockedItemIff(hash, ns, m', newer);
  }

  // ---------------------------------------------------------------- items that coexist

  /** No item of a drop makes another one obsolete; one may be listed more than once. */
  predicate Coexist(items: seq<Item>) {
    forall i, j | 0 <= i < |items| && 0 <= j < |items| ::
      items[i] == items[j] || !DominatedBy(items[i].entry.entry, items[j].entry.entry)
  }

  /** A store of precisely these items. */
  ghost predicate HoldsItems(m: Store, items: seq<Item>) {
    && (forall i | 0 <= i < |items| :: KeyOf(items[i].entry.entry) in m && m[KeyOf(items[i].entry.entry)] == RecordOf(items[i]))
    && (forall k | k in m :: exists i :: 0 <= i < |items| && k == KeyOf(items[i].entry.entry))
  }

  lemma CoexistingItem(m: Store, items: seq<Item>, x: Item)
    requires HoldsItems(m, items) && Coexist(items + [x])
    ensures Blockers(m, x.entry.entry) == {}
    ensures HoldsItems(Prune(m, x.entry.entry)[KeyOf(x.entry.entry) := RecordOf(x)], items + [x])
  {
    var all, e, n := items + [x], x.entry.entry, |items|;
    var m' := Prune(m, e)[KeyOf(e) := RecordOf(x)];
    forall k | k in m ensures !Blocks(k, m[k], e) && (k in Prunable(m, e) ==> k == KeyOf(e)) {
      var i :| 0 <= i < n && k == KeyOf(items[i].entry.entry);
      assert all[i] == items[i] && all[n] == x;
    }
    forall i | 0 <= i <= n ensures KeyOf(all[i].entry.entry) in m' && m'[KeyOf(all[i].entry.entry)] == RecordOf(all[i]) {
      if i < n && KeyOf(all[i].entry.entry) == KeyOf(e) { assert all[i] == all[n]; }
    }
    forall k | k in m' ensures exists i :: 0 <= i <= n && k == KeyOf(all[i].entry.entry) {
      if k == KeyOf(e) {
        assert k == KeyOf(all[n].entry.entry);
      } else {
        var i :| 0 <= i < n && k == KeyOf(items[i].entry.entry);
        assert all[i] == items[i];
      }
    }
  }

  lemma CoexistingStep(hash: Hash, ns: NamespaceId, m: Store, items: seq<Item>, x: Item)
    requires HoldsItems(m, items) && Coexist(items + [x]) && ProperItem(ns, x)
    ensures IngestItem(hash, ns, m, x).Ok? <==> PayloadMatches(hash, x)
    ensures IngestItem(hash, ns, m, x).Ok? ==> HoldsItems(IngestItem(hash, ns, m, x).value, items + [x])
  {
    CoexistingItem(m, items, x);
    UnblockedItemIff(hash, ns, m, x);
  }

  predicate PayloadsMatch(hash: Hash, items: seq<Item>) {
    forall i | 0 <= i < |items| :: PayloadMatches(hash, items[i])
  }

  lemma OneMoreItem(hash: Hash, ns: NamespaceId, items: seq<Item>, x: Item)
    ensures ProperItems(ns, items + [x]) <==> ProperItems(ns, items) && ProperItem(ns, x)
    ensures PayloadsMatch(hash, items + [x]) <==> PayloadsMatch(hash, items) && PayloadMatches(hash, x)
    ensures Coexist(items + [x]) ==> Coexist(items)
  {
    var all := items + [x];
    assert all[|items|] == x && forall i | 0 <= i < |items| :: all[i] == items[i];
  }

  /** Items that coexist are all ingested into an empty store if and only if their payloads match, and
      then the store holds precisely them. */
  lemma {:induction false} CoexistingIngestedIff(hash: Hash, ns: NamespaceId, items: seq<Item>)
    requires ProperItems(ns, items) && Coexist(items)
    ensures IngestInto(hash, ns, map[], items).Ok? <==> PayloadsMatch(hash, items)
    ensures IngestInto(hash, ns, map[], items).Ok? ==> HoldsItems(IngestInto(hash, ns, map[], items).value, items)
    decreases |items|
  {
    if items != [] {
      var init, x := items[..|items| - 1], items[|items| - 1];
      assert items == init + [x];
      OneMoreItem(hash, ns, init, x);
      CoexistingIngestedIff(hash, ns, init);
      var before := IngestInto(hash, ns, map[], init);
      if before.Ok? { CoexistingStep(hash, ns, before.value, init, x); }
    }
  }

  // ---------------------------------------------------------------- the loop

  datatype IngestDropError = Malformed | PayloadIngestion(error: PayloadAppendError)

  /** How a producer exposes its bytes: in any chunks. */
  type Chop = seq<byte> -> seq<seq<byte>>

  ghost predicate LawfulChop(chop: Chop) {
    forall bytes :: Concat(chop(bytes)) == bytes && forall i | 0 <= i < |chop(bytes)| :: chop(bytes)[i] != []
  }

  lemma DecodedItemProper(f: Format, ns: NamespaceId, prev: AuthorisedEntry, input: seq<byte>)
    ensures var item := DecodeItem(f, ns, prev, input);
      item.Some? ==> ProperItem(ns, item.value.0)
  {}

  ghost predicate DecodesProper(k: Coder, ns: NamespaceId) {
    forall prev, input | k.decode(prev, input).Some? :: ProperItem(ns, k.decode(prev, input).value.0)
  }

  lemma {:induction false} DecodedProper(k: Coder, ns: NamespaceId, prev: AuthorisedEntry, n: nat, input: seq<byte>)
    requires DecodesProper(k, ns)
    ensures DecodeItems(k, prev, n, input).Some? ==> ProperItems(ns, DecodeItems(k, prev, n, input).value.0)
    decreases n
  {
    if n > 0 {
      var first := k.decode(prev, input);
      if first.Some? { DecodedProper(k, ns, first.value.0.entry, n - 1, first.value.1); }
    }
  }

  /** For a drop that decodes, the list of its items decides. */
  lemma Decides(hash: Hash, f: Format, ns: NamespaceId, first: Store, start: AuthorisedEntry, input: seq<byte>)
    ensures var drop := DecodeDrop(f, ns, start, input);
      drop.Some? ==>
        var r := IngestInto(hash, ns, first, drop.value.0);
        && (r.Ok? <==> AllAcceptable(hash, first, drop.value.0))
        && (r.Ok? ==> HoldsHeld(first, r.value, drop.value.0))
  {
    var drop := DecodeDrop(f, ns, start, input);
    if drop.Some? {
      var count := DecodeU64(input).value;
      forall prev, bytes ensures DecodeItem(f, ns, prev, bytes).Some? ==> ProperItem(ns, DecodeItem(f, ns, prev, bytes).value.0) {
        DecodedItemProper(f, ns, prev, bytes);
      }
      DecodedProper(CoderFor(f, ns), ns, start, count.0, f.decodeNamespace(count.1).value.1);
      DropIngestedIff(hash, ns, first, drop.value.0);
    }
  }

  /** Decode the items of a drop, and ingest each of them with its payload. */
  method IngestDrop(f: Format, store: ControlStore, start: AuthorisedEntry, input: seq<byte>, hash: Hash, chop: Chop)
      returns (r: Result<seq<byte>, IngestDropError>)
    requires LawfulChop(chop)
    modifies store
    ensures var drop := DecodeDrop(f, store.namespace, start, input);
      && (drop.None? ==> r.Err?)
      && (drop.Some? ==>
        var after := IngestInto(hash, store.namespace, old(store.View()), drop.value.0);
        && (after.Ok? ==> r == Ok(drop.value.1) && store.View() == after.value)
        && (after.Err? ==> r == Err(PayloadIngestion(after.error))))
    ensures var drop := DecodeDrop(f, store.namespace, start, input);
      && (r.Ok? <==> drop.Some? && AllAcceptable(hash, old(store.View()), drop.value.0))
      && (r.Ok? ==> HoldsHeld(old(store.View()), store.View(), drop.value.0))
  {
    Decides(hash, f, store.namespace, store.View(), start, input);
    var count := DecodeU64(input);
    if count.None? { return Err(Malformed); }
    var namespace := f.decodeNamespace(count.value.1);
    if namespace.None? || namespace.value.0 != store.namespace { return Err(Malformed); }
    r := IngestItems(CoderFor(f, store.namespace), store, start, count.value.0, namespace.value.1, hash, chop);
  }

  function Prepended(items: seq<Item>, more: Decoded<seq<Item>>): Decoded<seq<Item>> {
    if more.None? then None else Some((items + more.value.0, more.value.1))
  }

  lemma DecodeOneMore(k: Coder, items: seq<Item>, prev: AuthorisedEntry, n: nat, input: seq<byte>)
    requires n > 0
    ensures Prepended(items, DecodeItems(k, prev, n, input)) ==
      match k.decode(prev, input)
      case None => None
      case Some((item, rest)) => Prepended(items + [item], DecodeItems(k, item.entry, n - 1, rest))
  {
    var first := k.decode(prev, input);
    if first.Some? {
      var more := DecodeItems(k, first.value.0.entry, n - 1, first.value.1);
      if more.Some? { assert items + ([first.value.0] + more.value.0) == (items + [first.value.0]) + more.value.0; }
    }
  }

  /** What ingesting a decoded drop is to end in. */
  ghost predicate EndsAs(hash: Hash, ns: NamespaceId, before: Store, drop: Decoded<seq<Item>>,
                         r: Result<seq<byte>, IngestDropError>, after: Store)
  {
    match drop
    case None => r.Err?
    case Some((items, rest)) =>
      match IngestInto(hash, ns, before, items)
      case Ok(m) => r == Ok(rest) && after == m
      case Err(e) => r == Err(PayloadIngestion(e))
  }

  lemma RefusedAtOnce(hash: Hash, ns: NamespaceId, before: Store, items: seq<Item>, more: Decoded<seq<Item>>, e: PayloadAppendError, after: Store)
    requires IngestInto(hash, ns, before, items) == Err(e)
    ensures EndsAs(hash, ns, before, Prepended(items, more), Err(PayloadIngestion(e)), after)
  {
    if more.Some? { RefusedFromThen(hash, ns, before, items, more.value.0); }
  }

  /** Some items are ingested, and the rest of a drop is still to be decoded. */
  ghost predicate Underway(k: Coder, hash: Hash, ns: NamespaceId, before: Store, goal: Decoded<seq<Item>>,
                           items: seq<Item>, prev: AuthorisedEntry, n: nat, rest: seq<byte>, now: Store)
  {
    goal == Prepended(items, DecodeItems(k, prev, n, rest)) && IngestInto(hash, ns, before, items) == Ok(now)
  }

  lemma UnderwayAtFirst(k: Coder, hash: Hash, ns: NamespaceId, before: Store, prev: AuthorisedEntry, n: nat, rest: seq<byte>)
    ensures Underway(k, hash, ns, before, DecodeItems(k, prev, n, rest), [], prev, n, rest, before)
  {
    var goal := DecodeItems(k, prev, n, rest);
    if goal.Some? { assert [] + goal.value.0 == goal.value.0; }
  }

  lemma UnderwayAtLast(k: Coder, hash: Hash, ns: NamespaceId, before: Store, goal: Decoded<seq<Item>>,
                       items: seq<Item>, prev: AuthorisedEntry, rest: seq<byte>, now: Store)
    requires Underway(k, hash, ns, before, goal, items, prev, 0, rest, now)
    ensures EndsAs(hash, ns, before, goal, Ok(rest), now)
  {
    assert items + [] == items;
  }

  /** What becomes of one more item. */
  lemma UnderwayStep(k: Coder, hash: Hash, ns: NamespaceId, before: Store, goal: Decoded<seq<Item>>,
                     items: seq<Item>, prev: AuthorisedEntry, n: nat, rest: seq<byte>, now: Store, item: Item, after: seq<byte>)
    requires n > 0 && Underway(k, hash, ns, before, goal, items, prev, n, rest, now) && k.decode(prev, rest) == Some((item, after))
    ensures var done := IngestItem(hash, ns, now, item);
      && (done.Ok? ==> Underway(k, hash, ns, before, goal, items + [item], item.entry, n - 1, after, done.value))
      && (done.Err? ==> forall m :: EndsAs(hash, ns, before, goal, Err(PayloadIngestion(done.error)), m))
  {
    DecodeOneMore(k, items, prev, n, rest);
    IngestOneMore(hash, ns, before, items, item);
    var done := IngestItem(hash, ns, now, item);
    if done.Err? {
      forall m ensures EndsAs(hash, ns, before, goal, Err(PayloadIngestion(done.error)), m) {
        RefusedAtOnce(hash, ns, before, items + [item], DecodeItems(k, item.entry, n - 1, after), done.error, m);
      }
    }
  }

  lemma UnderwayStops(k: Coder, hash: Hash, ns: NamespaceId, before: Store, goal: Decoded<seq<Item>>,
                      items: seq<Item>, prev: AuthorisedEntry, n: nat, rest: seq<byte>, now: Store)
    requires n > 0 && Underway(k, hash, ns, before, goal, items, prev, n, rest, now) && k.decode(prev, rest).None?
    ensures EndsAs(hash, ns, before, goal, Err(Malformed), now)
  {}

  method IngestItems(k: Coder, store: ControlStore, start: AuthorisedEntry, count: nat, input: seq<byte>, hash: Hash, chop: Chop)
      returns (r: Result<seq<byte>, IngestDropError>)
    requires LawfulChop(chop)
    requires forall prev, bytes :: k.decode(prev, bytes).Some? ==>
      k.decode(prev, bytes).value.0.entry.entry.namespaceId == store.namespace
    modifies store
    ensures EndsAs(hash, store.namespace, old(store.View()), DecodeItems(k, start, count, input), r, store.View())
  {
    ghost var goal, before := DecodeItems(k, start, count, input), store.View();
    var prev, rest := start, input;
    ghost var items := [];
    UnderwayAtFirst(k, hash, store.namespace, before, start, count, input);
    for i := 0 to count
      invariant Underway(k, hash, store.namespace, before, goal, items, prev, count - i, rest, store.View())
    {
      var first := k.decode(prev, rest);
      if first.None? {
        UnderwayStops(k, hash, store.namespace, before, goal, items, prev, count - i, rest, store.View());
        return Err(Malformed);
      }
      var (item, after) := first.value;
      UnderwayStep(k, hash, store.namespace, before, goal, items, prev, count - i, rest, store.View(), item, after);
      var done := IngestOne(store, item, hash, chop);
      if done.Err? { return Err(PayloadIngestion(done.error)); }
      items, prev, rest := items + [item], item.entry, after;
    }
    UnderwayAtLast(k, hash, store.namespace, before, goal, items, prev, rest, store.View());
    return Ok(rest);
  }

  method IngestOne(store: ControlStore, item: Item, hash: Hash, chop: Chop) returns (r: Result<(), PayloadAppendError>)
    requires LawfulChop(chop) && item.entry.entry.namespaceId == store.namespace
    modifies store
    ensures var after := IngestItem(hash, store.namespace, old(store.View()), item);
      && (r.Ok? <==> after.Ok?)
      && (r.Ok? ==> store.View() == after.value)
      && (r.Err? ==> r.error == after.error)
  {
    var e := item.entry.entry;
    var _ := store.IngestEntry(item.entry, false, Local);
    if item.payload.None? { return Ok(()); }
    r := store.AppendPayload(e.subspace, e.path, e.digest, chop(item.payload.value), hash);
  }
}
