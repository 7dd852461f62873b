/** The persistent store: every operation reads and rewrites two trees, and means what it means
    on the map of records that both trees hold. */
module SledStores {
  import opened Wrappers
  import opened ByteStrings
  import opened Paths
  import opened Grouping
  import opened Entries
  import opened Convergence
  import opened StoreEvents
  import opened KeyCodec
  import opened TreeIndex
  import opened Queries
  import opened SledTrees
  import opened SledQueries
  import opened Fingerprints

  lemma FreshRecordValid(lim: Limits, width: nat, a: AuthorisedEntry)
    requires ValidEntry(lim, width, a.entry)
    ensures ValidRecord(lim, width, KeyOf(a.entry), FreshRecord(a))
  {}

  lemma SingleKey(lim: Limits, width: nat, spt: Tree, tsp: Tree, sptOf: map<seq<byte>, Key>, tspOf: map<seq<byte>, Key>,
                  m: Store, k: Key)
    requires InSpt(lim, width, spt, sptOf, m) && InTsp(lim, width, tsp, tspOf, m) && k in m
    ensures KeysOf(sptOf, {k}) == {SptKeyOf(k, m[k])}
    ensures KeysOf(tspOf, {k}) == {TspKeyOf(k, m[k])}
  {
    KeysPlusOne(spt, sptOf, SptAt(m), Values(m), {}, k);
    KeysPlusOne(tsp, tspOf, TspAt(m), Values(m), {}, k);
    assert {} + {k} == {k};
    assert KeysOf(sptOf, {}) + {SptAt(m)[k]} == {SptAt(m)[k]};
    assert KeysOf(tspOf, {}) + {TspAt(m)[k]} == {TspAt(m)[k]};
  }

  lemma BothWrite(lim: Limits, width: nat, spt: Tree, tsp: Tree, sptOf: map<seq<byte>, Key>, tspOf: map<seq<byte>, Key>,
                  m: Store, k: Key, r: Record, sptKey: seq<byte>, tspKey: seq<byte>, value: Value)
    requires InSpt(lim, width, spt, sptOf, m) && InTsp(lim, width, tsp, tspOf, m) && ValidRecord(lim, width, k, r)
    requires k in m ==> r.timestamp == m[k].timestamp
    requires sptKey == SptKeyOf(k, r) && tspKey == TspKeyOf(k, r) && value == ValueOf(r)
    ensures InSpt(lim, width, spt[sptKey := value], sptOf[sptKey := k], m[k := r])
    ensures InTsp(lim, width, tsp[tspKey := value], tspOf[tspKey := k], m[k := r])
  {
    if k in m {
      SptUpdate(lim, width, spt, sptOf, m, k, r);
      TspUpdate(lim, width, tsp, tspOf, m, k, r);
    } else {
      SptInsert(lim, width, spt, sptOf, m, k, r);
      TspInsert(lim, width, tsp, tspOf, m, k, r);
    }
  }

  function WithAvailable(r: Record, available: nat): Record {
    r.(available := available)
  }

  class SledStore {
    const lim: Limits
    const width: nat
    const namespace: NamespaceId
    var spt: Tree
    var tsp: Tree
    var queued: seq<QueuedOp>
    ghost var sptOf: map<seq<byte>, Key>
    ghost var tspOf: map<seq<byte>, Key>
    ghost var view: Store

    /** Both trees hold the same records, each once, and decode to the view. */
    ghost predicate Valid()
      reads this
    {
      InSpt(lim, width, spt, sptOf, view) && InTsp(lim, width, tsp, tspOf, view)
    }

    constructor (lim: Limits, width: nat, namespace: NamespaceId)
      ensures Valid() && view == map[] && queued == []
      ensures this.lim == lim && this.width == width && this.namespace == namespace
    {
      this.lim, this.width, this.namespace := lim, width, namespace;
      spt, tsp, queued := map[], map[], [];
      sptOf, tspOf, view := map[], map[], map[];
    }

    /** One batch for each tree, applied together. */
    method Commit(spt': Tree, tsp': Tree,
                  ghost sptOf': map<seq<byte>, Key>, ghost tspOf': map<seq<byte>, Key>, ghost view': Store)
      requires InSpt(lim, width, spt', sptOf', view') && InTsp(lim, width, tsp', tspOf', view')
      modifies this`spt, this`tsp, this`sptOf, this`tspOf, this`view
      ensures Valid() && view == view'
    {
      spt, tsp := spt', tsp';
      sptOf, tspOf, view := sptOf', tspOf', view';
    }

    method ApplyRemovals(sptKeys: set<seq<byte>>, tspKeys: set<seq<byte>>, ghost gone: set<Key>)
      requires Valid() && sptKeys == KeysOf(sptOf, gone) && tspKeys == KeysOf(tspOf, gone)
      modifies this`spt, this`tsp, this`sptOf, this`tspOf, this`view
      ensures Valid() && view == old(view) - gone
    {
      SptRemove(lim, width, spt, sptOf, view, gone);
      TspRemove(lim, width, tsp, tspOf, view, gone);
      Commit(spt - sptKeys, tsp - tspKeys, sptOf - sptKeys, tspOf - tspKeys, view - gone);
    }

    method ApplyWrite(sptKey: seq<byte>, tspKey: seq<byte>, value: Value, ghost k: Key, ghost r: Record)
      requires Valid() && sptKey == SptKeyOf(k, r) && tspKey == TspKeyOf(k, r) && value == ValueOf(r)
      requires ValidRecord(lim, width, k, r)
      requires k in view ==> r.timestamp == view[k].timestamp
      modifies this`spt, this`tsp, this`sptOf, this`tspOf, this`view
      ensures Valid() && view == old(view)[k := r]
    {
      BothWrite(lim, width, spt, tsp, sptOf, tspOf, view, k, r, sptKey, tspKey, value);
      Commit(spt[sptKey := value], tsp[tspKey := value], sptOf[sptKey := k], tspOf[tspKey := k], view[k := r]);
    }

    method IngestEntry(a: AuthorisedEntry, preventPruning: bool, origin: EntryOrigin) returns (r: IngestResult)
      requires Valid() && ValidEntry(lim, width, a.entry) && a.entry.namespaceId == namespace
      modifies this
      ensures Valid()
      ensures (view, r) == Ingest(namespace, old(view), a, preventPruning)
      ensures IngestMeaning(namespace, old(view), a, preventPruning, view, r)
      ensures queued == old(queued) + if r.Success? then [Insertion(a, origin)] else []
    {
      IngestContents(namespace, view, a, preventPruning);
      r := TryIngest(a, preventPruning, origin);
    }

    method TryIngest(a: AuthorisedEntry, preventPruning: bool, origin: EntryOrigin) returns (r: IngestResult)
      requires Valid() && ValidEntry(lim, width, a.entry) && a.entry.namespaceId == namespace
      modifies this
      ensures Valid()
      ensures (view, r) == Ingest(namespace, old(view), a, preventPruning)
      ensures queued == old(queued) + if r.Success? then [Insertion(a, origin)] else []
    {
      var newer := FindNewer(width, spt, a.entry, lim, sptOf, view);
      if newer.Some? {
        var (k, record) := newer.value;
        IngestBlocked(namespace, view, a, preventPruning, k);
        return Obsolete(a, Restore(namespace, k, record));
      }
      var prevented, sptKeys := CollectPrunable(width, spt, a.entry, preventPruning, lim, sptOf, view);
      if prevented { return PruningPrevented; }
      ghost var gone := Prunable(view, a.entry);
      var tspKeys := TranslateKeys(width, spt, sptKeys, lim, sptOf, tsp, tspOf, view, gone);
      PruneMakesRoom(view, a.entry);
      ApplyRemovals(sptKeys, tspKeys, gone);
      var e := a.entry;
      FreshRecordValid(lim, width, a);
      var sptKey := EncodeSptEntryKey(e.subspace, e.path, e.timestamp);
      var tspKey := EncodeTspEntryKey(e.subspace, e.path, e.timestamp);
      ApplyWrite(sptKey, tspKey, Value(e.payloadLength, e.digest, a.token, 0), KeyOf(e), FreshRecord(a));
      queued := queued + [Insertion(a, origin)];
      return Success;
    }

    method ForgetEntry(s: SubspaceId, p: Path, expected: Option<nat>) returns (r: Result<(), ForgetError>)
      requires Valid() && ValidSubspace(width, s)
      modifies this
      ensures Valid()
      ensures (view, r) == Entries.ForgetEntry(old(view), Key(s, p), expected)
      ensures queued == old(queued) + ForgetEntryOps(namespace, old(view), Key(s, p), expected)
      ensures ForgetEntryMeaning(namespace, old(view), Key(s, p), expected, view, r, queued[|old(queued)|..])
    {
      ForgetEntryMeans(namespace, view, Key(s, p), expected);
      r := TryForget(s, p, expected);
    }

    method TryForget(s: SubspaceId, p: Path, expected: Option<nat>) returns (r: Result<(), ForgetError>)
      requires Valid() && ValidSubspace(width, s)
      modifies this
      ensures Valid()
      ensures (view, r) == Entries.ForgetEntry(old(view), Key(s, p), expected)
      ensures queued == old(queued) + ForgetEntryOps(namespace, old(view), Key(s, p), expected)
    {
      var found := FindExact(width, spt, s, p, lim, sptOf, view);
      if found.None? { return Ok(()); }
      var (sptKey, record) := found.value;
      if expected.Some? && expected.value != record.digest { return Err(ForgetError.WrongEntry); }
      var tspKey := EncodeTspEntryKey(s, p, record.timestamp);
      SingleKey(lim, width, spt, tsp, sptOf, tspOf, view, Key(s, p));
      ApplyRemovals({sptKey}, {tspKey}, {Key(s, p)});
      queued := queued + [EntryForgotten(Restore(namespace, Key(s, p), record), record.available)];
      return Ok(());
    }

    /** Unlike the reference store, this one reports the area alone, even if nothing was forgotten. */
    method ForgetArea(area: Area, protected: Option<Area>) returns (count: nat)
      requires Valid() && ValidArea(lim, width, area)
      modifies this
      ensures Valid()
      ensures (view, count) == Entries.ForgetArea(old(view), area, protected)
      ensures ForgetAreaMeaning(old(view), area, protected, view, count)
      ensures queued == old(queued) + [AreaForgotten(area, protected)]
    {
      ForgetAreaMeans(view, area, protected);
      var sptKeys;
      sptKeys, count := CollectForgettable(width, spt, area, protected, lim, sptOf, view);
      ghost var gone := Forgotten(view, area, protected);
      var tspKeys := TranslateKeys(width, spt, sptKeys, lim, sptOf, tsp, tspOf, view, gone);
      ApplyRemovals(sptKeys, tspKeys, gone);
      queued := queued + [AreaForgotten(area, protected)];
    }

    /** What appending to or forgetting a payload does to the entry trees: the local length changes in both. */
    method SetLocalLength(s: SubspaceId, p: Path, expected: Option<nat>, localLength: nat)
        returns (r: Result<bool, ForgetError>)
      requires Valid() && ValidSubspace(width, s)
      requires Key(s, p) in view ==> localLength <= view[Key(s, p)].payloadLength
      modifies this`spt, this`tsp, this`sptOf, this`tspOf, this`view
      ensures Valid()
      ensures r == (if Key(s, p) !in old(view) then Ok(false)
        else if expected.Some? && old(view)[Key(s, p)].digest != expected.value then Err(ForgetError.WrongEntry)
        else Ok(true))
      ensures view == if r == Ok(true)
        then old(view)[Key(s, p) := WithAvailable(old(view)[Key(s, p)], localLength)] else old(view)
    {
      var found := FindExact(width, spt, s, p, lim, sptOf, view);
      if found.None? { return Ok(false); }
      var (sptKey, record) := found.value;
      if expected.Some? && expected.value != record.digest { return Err(ForgetError.WrongEntry); }
      var tspKey := EncodeTspEntryKey(s, p, record.timestamp);
      var value := Value(record.payloadLength, record.digest, record.token, localLength);
      ApplyWrite(sptKey, tspKey, value, Key(s, p), WithAvailable(record, localLength));
      return Ok(true);
    }

    method CountArea(area: Area) returns (counted: nat)
      requires Valid() && ValidArea(lim, width, area)
      ensures counted == |Forgotten(view, area, None)|
    {
      counted := CountIncluded(width, spt, area, lim, sptOf, view);
    }

    /** The entry at one place, unless it is to be ignored. */
    method GetEntry(s: SubspaceId, p: Path, ignore: QueryIgnoreParams) returns (r: Option<LengthyEntry>)
      requires Valid() && ValidSubspace(width, s)
      ensures r == EntryAt(namespace, view, Key(s, p), ignore)
      ensures AnswersPlace(namespace, view, Key(s, p), ignore, r)
    {
      var found := FindExact(width, spt, s, p, lim, sptOf, view);
      if found.None? { return None; }
      var (_, record) := found.value;
      assert ValidRecord(lim, width, Key(s, p), record);
      var isIncomplete := record.available < record.payloadLength;
      if (ignore.ignoreIncompletePayloads && isIncomplete) || (ignore.ignoreEmptyPayloads && record.payloadLength == 0) {
        return None;
      }
      return Some((Restore(namespace, Key(s, p), record), record.available));
    }

    method QueryRange(range: Range3d, ignore: QueryIgnoreParams) returns (items: seq<LengthyEntry>, ghost order: seq<Key>)
      requires Valid() && ValidRange(lim, width, range) && MaxPathExists(lim)
      ensures Answers(namespace, view, RangeHits(view, range, ignore), order, items)
      ensures AnswersRange(namespace, view, range, ignore, items)
    {
      var maxPath := NewMaxPath(lim);
      items, order := SledQueries.QueryRange(namespace, width, spt, range, ignore, lim, maxPath.value, sptOf, view);
    }

    /** An area is queried through the range made of it. */
    method QueryArea(area: Area, ignore: QueryIgnoreParams) returns (items: seq<LengthyEntry>, ghost order: seq<Key>)
      requires Valid() && ValidArea(lim, width, area) && ValidTimes(area.times) && MaxPathExists(lim)
      ensures Answers(namespace, view, RangeHits(view, RangeFromArea(lim, width, area), ignore), order, items)
      ensures AnswersRange(namespace, view, RangeFromArea(lim, width, area), ignore, items)
    {
      AreaRangeValid(lim, width, area);
      items, order := QueryRange(RangeFromArea(lim, width, area), ignore);
    }

    /** The fingerprint of a range, and how many entries it holds. */
    method Summarise<F(!new)>(range: Range3d, o: Monoid<F>) returns (fp: F, size: nat)
      requires Valid() && ValidRange(lim, width, range) && MaxPathExists(lim) && Lawful(o)
      ensures RangeHits(view, range, DEFAULT_IGNORE) <= view.Keys
      ensures size == |RangeHits(view, range, DEFAULT_IGNORE)|
      ensures fp == Fold(o, namespace, view, RangeHits(view, range, DEFAULT_IGNORE))
    {
      var items, order := QueryRange(range, DEFAULT_IGNORE);
      ghost var hits := RangeHits(view, range, DEFAULT_IGNORE);
      AnswersExpand(namespace, view, hits, order, items);
      ListsMembers(order, hits);
      FoldAnswer(o, namespace, view, hits, order, items);
      fp, size := SummariseItems(o, items);
    }
  }

  method SummariseItems<F>(o: Monoid<F>, items: seq<LengthyEntry>) returns (fp: F, size: nat)
    ensures fp == FoldItems(o, items) && size == |items|
  {
    fp, size := o.neutral, 0;
    for i := 0 to |items|
      invariant fp == FoldItems(o, items[..i]) && size == i
    {
      assert items[..i + 1][..i] == items[..i];
      fp, size := o.combine(fp, o.singleton(items[i])), size + 1;
    }
    assert items[..|items|] == items;
  }
}
