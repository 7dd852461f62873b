/** Range queries: a scan between two keys of the first tree, filtered. */
module SledQueries {
  import opened Wrappers
  import opened ByteStrings
  import opened Paths
  import opened Grouping
  import opened Entries
  import opened StoreEvents
  import opened KeyCodec
  import opened Queries
  import opened SledTrees

  predicate ValidRange(lim: Limits, width: nat, r: Range3d) {
    && ValidSubspace(width, r.subspaces.start)
    && (r.subspaces.end.Closed? ==> ValidSubspace(width, r.subspaces.end.end))
    && ValidTimes(r.times)
  }

  lemma AreaRangeValid(lim: Limits, width: nat, area: Area)
    requires ValidArea(lim, width, area) && ValidTimes(area.times)
    ensures ValidRange(lim, width, RangeFromArea(lim, width, area))
  {
    if area.subspace.Id? { SubspaceSuccessorMeaning(area.subspace.id, area.subspace.id); }
  }

  /** The last key of a scan: open ends become the greatest subspace, path and timestamp. */
  function LastSubspace(width: nat, r: Range3d): SubspaceId {
    match r.subspaces.end case Closed(s) => s case Open => seq(width, i => 255)
  }

  function LastPath(lim: Limits, r: Range3d): Path {
    match r.paths.end case Closed(p) => p case Open => MaxFrom(lim.mcl, lim.mcc, lim.mpl)
  }

  function EndOr<T>(end: RangeEnd<T>, max: T): T {
    match end case Closed(t) => t case Open => max
  }

  function LastTime(r: Range3d): nat {
    match r.times.end case Closed(t) => t case Open => U64_LIMIT - 1
  }

  function ScanRange(tree: Tree, first: seq<byte>, last: seq<byte>): set<seq<byte>> {
    set b | b in tree && BytesLeq(first, b) && BytesLeq(b, last)
  }

  /** No entry of a range lies outside of the scan. */
  lemma RangeInsideScan(lim: Limits, width: nat, r: Range3d, s: SubspaceId, p: Path, t: nat)
    requires ValidRange(lim, width, r) && ValidSubspace(width, s) && ValidPath(lim, p) && t < U64_LIMIT
    requires RangeIncludes(r, s, p, t)
    ensures BytesLeq(SptKey(r.subspaces.start, r.paths.start, r.times.start), SptKey(s, p, t))
    ensures BytesLeq(SptKey(s, p, t), SptKey(LastSubspace(width, r), LastPath(lim, r), LastTime(r)))
  {
    if r.subspaces.end.Open? { AllMaxIsGreatest(s, width); }
    if r.paths.end.Open? { MaxFromIsGreatest(lim.mcl, lim.mcc, lim.mpl, p); }
    SptKeyOrder(r.subspaces.start, r.paths.start, r.times.start, s, p, t);
    SptKeyOrder(s, p, t, LastSubspace(width, r), LastPath(lim, r), LastTime(r));
  }

  // ---------------------------------------------------------------- the producer

  /** The answer so far, and what remains to be scanned for the rest. */
  ghost predicate Progress(ns: NamespaceId, m: Store, of: map<seq<byte>, Key>, ks: set<Key>, remaining: set<seq<byte>>,
                           order: seq<Key>, items: seq<LengthyEntry>, done: set<Key>) {
    && Answers(ns, m, done, order, items) && done <= ks
    && forall b | b in of && of[b] in ks :: b in remaining <==> of[b] !in done
  }

  lemma ProduceStep(ns: NamespaceId, lim: Limits, width: nat, spt: Tree, of: map<seq<byte>, Key>, m: Store, ks: set<Key>,
                    remaining: set<seq<byte>>, order: seq<Key>, items: seq<LengthyEntry>, done: set<Key>, b: seq<byte>, k: Key)
    requires InSpt(lim, width, spt, of, m) && b in of && of[b] == k && k in m && b in remaining
    requires Progress(ns, m, of, ks, remaining, order, items, done)
    ensures if k in ks
      then Progress(ns, m, of, ks, remaining - {b}, order + [k], items + [LengthyOf(ns, m, k)], done + {k})
      else Progress(ns, m, of, ks, remaining - {b}, order, items, done)
  {
    assert forall c | c in of && of[c] == k :: c == b;
    if k in ks { AnswersStep(ns, m, done, order, items, k); }
  }

  method QueryRange(ns: NamespaceId, width: nat, spt: Tree, range: Range3d, ignore: QueryIgnoreParams,
                    ghost lim: Limits, maxPath: Path, ghost of: map<seq<byte>, Key>, ghost m: Store)
      returns (items: seq<LengthyEntry>, ghost order: seq<Key>)
    requires InSpt(lim, width, spt, of, m) && ValidRange(lim, width, range)
    requires maxPath == MaxFrom(lim.mcl, lim.mcc, lim.mpl)
    ensures Answers(ns, m, RangeHits(m, range, ignore), order, items)
    ensures AnswersRange(ns, m, range, ignore, items)
  {
    items, order := ScanAll(ns, width, spt, range, ignore, lim, maxPath, of, m);
    RangeAnswer(ns, m, range, ignore, order, items);
  }

  method ScanAll(ns: NamespaceId, width: nat, spt: Tree, range: Range3d, ignore: QueryIgnoreParams,
                 ghost lim: Limits, maxPath: Path, ghost of: map<seq<byte>, Key>, ghost m: Store)
      returns (items: seq<LengthyEntry>, ghost order: seq<Key>)
    requires InSpt(lim, width, spt, of, m) && ValidRange(lim, width, range)
    requires maxPath == MaxFrom(lim.mcl, lim.mcc, lim.mpl)
    ensures Answers(ns, m, RangeHits(m, range, ignore), order, items)
  {
    var first := EncodeSptEntryKey(range.subspaces.start, range.paths.start, range.times.start);
    var lastSubspace := LastSubspace(width, range);
    var last := EncodeSptEntryKey(lastSubspace, EndOr(range.paths.end, maxPath), LastTime(range));
    var remaining := ScanRange(spt, first, last);
    ghost var hits, done := RangeHits(m, range, ignore), {};
    items, order := [], [];
    HitsScanned(lim, width, spt, of, m, range, ignore, remaining);
    while remaining != {}
      invariant remaining <= ScanRange(spt, first, last)
      invariant Progress(ns, m, of, hits, remaining, order, items, done)
      decreases remaining
    {
      var b := TakeLeast(remaining);
      var item, k := ProduceAt(ns, width, spt, b, range, ignore, lim, of, m);
      ProduceStep(ns, lim, width, spt, of, m, hits, remaining, order, items, done, b, k);
      remaining := remaining - {b};
      if item.Some? { items, order, done := items + [item.value], order + [k], done + {k}; }
    }
    HitsDone(lim, width, spt, of, m, hits, done);
  }

  /** What the producer makes of one key: nothing, or an item. */
  method ProduceAt(ns: NamespaceId, width: nat, spt: Tree, b: seq<byte>, range: Range3d, ignore: QueryIgnoreParams,
                   ghost lim: Limits, ghost of: map<seq<byte>, Key>, ghost m: Store)
      returns (item: Option<LengthyEntry>, ghost k: Key)
    requires InSpt(lim, width, spt, of, m) && b in spt
    ensures k == of[b] && k in m
    ensures item == if k in RangeHits(m, range, ignore) then Some(LengthyOf(ns, m, k)) else None
  {
    var key, record := DecodeRecord(width, spt, b, lim, of, m);
    k := key;
    if !RangeIncludes(range, key.subspace, key.path, record.timestamp) { return None, k; }
    var isEmptyString := record.payloadLength == 0;
    var isIncomplete := record.available < record.payloadLength;
    if (ignore.ignoreIncompletePayloads && isIncomplete) || (ignore.ignoreEmptyPayloads && isEmptyString) {
      return None, k;
    }
    return Some((Restore(ns, key, record), record.available)), k;
  }

  lemma HitsScanned(lim: Limits, width: nat, spt: Tree, of: map<seq<byte>, Key>, m: Store,
                    range: Range3d, ignore: QueryIgnoreParams, scanned: set<seq<byte>>)
    requires InSpt(lim, width, spt, of, m) && ValidRange(lim, width, range)
    requires scanned == ScanRange(spt, SptKey(range.subspaces.start, range.paths.start, range.times.start),
      SptKey(LastSubspace(width, range), LastPath(lim, range), LastTime(range)))
    ensures forall b | b in of && of[b] in RangeHits(m, range, ignore) :: b in scanned
  {
    forall b | b in of && of[b] in RangeHits(m, range, ignore) ensures b in scanned {
      var k := of[b];
      assert SptAt(m)[k] == b;
      RangeInsideScan(lim, width, range, k.subspace, k.path, m[k].timestamp);
    }
  }

  lemma HitsDone(lim: Limits, width: nat, spt: Tree, of: map<seq<byte>, Key>, m: Store, ks: set<Key>, done: set<Key>)
    requires InSpt(lim, width, spt, of, m) && ks <= m.Keys && done <= ks
    requires forall b | b in of && of[b] in ks :: of[b] in done
    ensures done == ks
  {
    forall k | k in ks ensures k in done {
      assert of[SptAt(m)[k]] == k;
    }
  }
}
