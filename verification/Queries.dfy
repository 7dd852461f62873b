/** Queries: which records an area or a range asks for, and what counts as an answer. */
module Queries {
  import opened Wrappers
  import opened ByteStrings
  import opened Paths
  import opened Grouping
  import opened Entries
  import opened StoreEvents

  const DEFAULT_IGNORE: QueryIgnoreParams := QueryIgnoreParams(false, false)

  predicate IsIgnored(ignore: QueryIgnoreParams, r: Record) {
    IgnoresLengthy(ignore, r.payloadLength, r.available)
  }

  function RangeHits(m: Store, range: Range3d, ignore: QueryIgnoreParams): set<Key> {
    set k | k in m && RangeIncludes(range, k.subspace, k.path, m[k].timestamp) && !IsIgnored(ignore, m[k])
  }

  function AreaHits(m: Store, area: Area, ignore: QueryIgnoreParams): set<Key> {
    set k | k in m && AreaIncludes(area, k.subspace, k.path, m[k].timestamp) && !IsIgnored(ignore, m[k])
  }

  type LengthyEntry = (AuthorisedEntry, nat)

  function LengthyOf(ns: NamespaceId, m: Store, k: Key): LengthyEntry
    requires k in m
  {
    (Restore(ns, k, m[k]), m[k].available)
  }

  function EntryAt(ns: NamespaceId, m: Store, k: Key, ignore: QueryIgnoreParams): Option<LengthyEntry> {
    if k !in m || IsIgnored(ignore, m[k]) then None else Some(LengthyOf(ns, m, k))
  }

  /** The answer to a query: each wanted record once, in some order. */
  ghost predicate Answers(ns: NamespaceId, m: Store, ks: set<Key>, order: seq<Key>, items: seq<LengthyEntry>)
    decreases |order|
  {
    if order == [] then ks == {} && items == []
    else
      var n, k := |order| - 1, order[|order| - 1];
      && |items| == n + 1 && k in ks && k in m && items[n] == LengthyOf(ns, m, k)
      && Answers(ns, m, ks - {k}, order[..n], items[..n])
  }

  lemma AnswersStep(ns: NamespaceId, m: Store, ks: set<Key>, order: seq<Key>, items: seq<LengthyEntry>, k: Key)
    requires Answers(ns, m, ks, order, items) && k in m && k !in ks
    ensures Answers(ns, m, ks + {k}, order + [k], items + [LengthyOf(ns, m, k)])
  {
    var order', items' := order + [k], items + [LengthyOf(ns, m, k)];
    assert |items| == |order|;
    assert order'[..|order|] == order && items'[..|order|] == items && ks + {k} - {k} == ks;
  }

  lemma {:induction false} AnswersExpand(ns: NamespaceId, m: Store, ks: set<Key>, order: seq<Key>, items: seq<LengthyEntry>)
    requires Answers(ns, m, ks, order, items)
    ensures ks <= m.Keys && Lists(order, ks) && |items| == |order|
    ensures forall i | 0 <= i < |items| :: order[i] in m && items[i] == LengthyOf(ns, m, order[i])
  {
    if order != [] {
      var n, k := |order| - 1, order[|order| - 1];
      AnswersExpand(ns, m, ks - {k}, order[..n], items[..n]);
    }
  }

  /** As a set, an answer is determined by the records it is made of. */
  lemma AnswerMembers(ns: NamespaceId, m: Store, ks: set<Key>, order: seq<Key>, items: seq<LengthyEntry>)
    requires Answers(ns, m, ks, order, items)
    ensures ks <= m.Keys && |items| == |ks|
    ensures forall k | k in ks :: LengthyOf(ns, m, k) in items
    ensures forall x | x in items :: KeyOf(x.0.entry) in ks && x == LengthyOf(ns, m, KeyOf(x.0.entry))
  {
    AnswersExpand(ns, m, ks, order, items);
    ListsMembers(order, ks);
    forall k | k in ks ensures LengthyOf(ns, m, k) in items {
      assert k in order;
      var i :| 0 <= i < |order| && order[i] == k;
      assert items[i] == LengthyOf(ns, m, k);
    }
    forall x | x in items ensures KeyOf(x.0.entry) in ks && x == LengthyOf(ns, m, KeyOf(x.0.entry)) {
      var i :| 0 <= i < |items| && items[i] == x;
      assert order[i] in order;
    }
  }

  function Members(items: seq<LengthyEntry>): set<LengthyEntry> {
    set x | x in items
  }

  /** Two answers with the same members come from the same records. */
  lemma AnswersDetermine(ns: NamespaceId, m: Store, ks: set<Key>, order: seq<Key>, items: seq<LengthyEntry>,
                         ks': set<Key>, order': seq<Key>, items': seq<LengthyEntry>)
    requires Answers(ns, m, ks, order, items) && Answers(ns, m, ks', order', items')
    ensures ks == ks' <==> Members(items) == Members(items')
  {
    AnswersDescribe(ns, m, ks, order, items, m, ks', order', items');
    AnswerMembers(ns, m, ks, order, items);
    AnswerMembers(ns, m, ks', order', items');
    assert Part(m, ks).Keys == ks && Part(m, ks').Keys == ks';
  }

  /** The records of some keys. */
  function Part(m: Store, ks: set<Key>): Store {
    map k | k in ks && k in m :: m[k]
  }

  /** Answers of two stores have the same members if and only if they are made of the same records. */
  lemma AnswersDescribe(ns: NamespaceId, m: Store, ks: set<Key>, order: seq<Key>, items: seq<LengthyEntry>,
                        m': Store, ks': set<Key>, order': seq<Key>, items': seq<LengthyEntry>)
    requires Answers(ns, m, ks, order, items) && Answers(ns, m', ks', order', items')
    ensures Part(m, ks) == Part(m', ks') <==> Members(items) == Members(items')
  {
    if Part(m, ks) == Part(m', ks') {
      PartsTellMembers(ns, m, ks, order, items, m', ks', order', items');
      PartsTellMembers(ns, m', ks', order', items', m, ks, order, items);
    }
    if Members(items) == Members(items') {
      MembersTellParts(ns, m, ks, order, items, m', ks', order', items');
      MembersTellParts(ns, m', ks', order', items', m, ks, order, items);
      assert Part(m, ks) == Part(m', ks');
    }
  }

  lemma PartsTellMembers(ns: NamespaceId, m: Store, ks: set<Key>, order: seq<Key>, items: seq<LengthyEntry>,
                         m': Store, ks': set<Key>, order': seq<Key>, items': seq<LengthyEntry>)
    requires Answers(ns, m, ks, order, items) && Answers(ns, m', ks', order', items') && Part(m, ks) == Part(m', ks')
    ensures Members(items) <= Members(items')
  {
    AnswerMembers(ns, m, ks, order, items);
    AnswerMembers(ns, m', ks', order', items');
    forall x | x in items ensures x in items' {
      var k := KeyOf(x.0.entry);
      assert k in Part(m, ks) && Part(m, ks)[k] == m[k] == m'[k];
      assert LengthyOf(ns, m', k) in items';
    }
  }

  lemma MembersTellParts(ns: NamespaceId, m: Store, ks: set<Key>, order: seq<Key>, items: seq<LengthyEntry>,
                         m': Store, ks': set<Key>, order': seq<Key>, items': seq<LengthyEntry>)
    requires Answers(ns, m, ks, order, items) && Answers(ns, m', ks', order', items') && Members(items) == Members(items')
    ensures Part(m, ks).Keys <= Part(m', ks').Keys
    ensures forall k | k in Part(m, ks) :: Part(m, ks)[k] == Part(m', ks')[k]
  {
    AnswerMembers(ns, m, ks, order, items);
    AnswerMembers(ns, m', ks', order', items');
    forall k | k in Part(m, ks) ensures k in Part(m', ks') && Part(m, ks)[k] == Part(m', ks')[k] {
      var x := LengthyOf(ns, m, k);
      assert x in Members(items');
      assert KeyOf(x.0.entry) == k;
    }
  }

  // ---------------------------------------------------------------- what an answer holds

  /** Each record of the store that lies in the area is among the items, once, unless its payload is empty
      and that is to be ignored, or not all of it is there and that is to be ignored; and nothing else is. */
  ghost predicate AnswersArea(ns: NamespaceId, m: Store, area: Area, ignore: QueryIgnoreParams, items: seq<LengthyEntry>) {
    && (forall k | k in m :: LengthyOf(ns, m, k) in items <==>
          && AreaIncludes(area, k.subspace, k.path, m[k].timestamp)
          && !(ignore.ignoreEmptyPayloads && m[k].payloadLength == 0)
          && !(ignore.ignoreIncompletePayloads && m[k].available != m[k].payloadLength))
    && OnlyRecords(ns, m, items)
  }

  ghost predicate AnswersRange(ns: NamespaceId, m: Store, range: Range3d, ignore: QueryIgnoreParams, items: seq<LengthyEntry>) {
    && (forall k | k in m :: LengthyOf(ns, m, k) in items <==>
          && RangeIncludes(range, k.subspace, k.path, m[k].timestamp)
          && !(ignore.ignoreEmptyPayloads && m[k].payloadLength == 0)
          && !(ignore.ignoreIncompletePayloads && m[k].available != m[k].payloadLength))
    && OnlyRecords(ns, m, items)
  }

  /** Every item stands for a record of its own. */
  ghost predicate OnlyRecords(ns: NamespaceId, m: Store, items: seq<LengthyEntry>) {
    && (forall x | x in items :: exists k :: k in m && x == LengthyOf(ns, m, k))
    && forall i, j | 0 <= i < j < |items| :: items[i] != items[j]
  }

  lemma AnswerIsOnlyRecords(ns: NamespaceId, m: Store, ks: set<Key>, order: seq<Key>, items: seq<LengthyEntry>)
    requires Answers(ns, m, ks, order, items)
    ensures OnlyRecords(ns, m, items)
    ensures forall k | k in m :: LengthyOf(ns, m, k) in items <==> k in ks
  {
    AnswersExpand(ns, m, ks, order, items);
    AnswerMembers(ns, m, ks, order, items);
    ListsMembers(order, ks);
    forall i, j | 0 <= i < j < |items| ensures items[i] != items[j] {
      assert KeyOf(items[i].0.entry) == order[i] && KeyOf(items[j].0.entry) == order[j];
    }
  }

  lemma AreaAnswer(ns: NamespaceId, m: Store, area: Area, ignore: QueryIgnoreParams, order: seq<Key>, items: seq<LengthyEntry>)
    requires Answers(ns, m, AreaHits(m, area, ignore), order, items)
    ensures AnswersArea(ns, m, area, ignore, items)
  {
    AnswerIsOnlyRecords(ns, m, AreaHits(m, area, ignore), order, items);
  }

  lemma RangeAnswer(ns: NamespaceId, m: Store, range: Range3d, ignore: QueryIgnoreParams, order: seq<Key>, items: seq<LengthyEntry>)
    requires Answers(ns, m, RangeHits(m, range, ignore), order, items)
    ensures AnswersRange(ns, m, range, ignore, items)
  {
    AnswerIsOnlyRecords(ns, m, RangeHits(m, range, ignore), order, items);
  }

  /** The entry at a place, with as much of its payload as is there, unless that is to be ignored. */
  ghost predicate AnswersPlace(ns: NamespaceId, m: Store, k: Key, ignore: QueryIgnoreParams, r: Option<LengthyEntry>) {
    if k !in m then r == None
    else if ignore.ignoreEmptyPayloads && m[k].payloadLength == 0 then r == None
    else if ignore.ignoreIncompletePayloads && m[k].available != m[k].payloadLength then r == None
    else r == Some((AuthorisedEntry(Entry(ns, k.subspace, k.path, m[k].timestamp, m[k].payloadLength, m[k].digest), m[k].token), m[k].available))
  }

  // ---------------------------------------------------------------- areas and the ranges made of them

  function SingleRecord(token: Token, t: nat): Record {
    Record(t, 0, 0, token, 0)
  }

  /** Asking for an area and asking for the range made of it find the same records in every store
      if and only if that range is exact. */
  lemma AreaQueryAgreesIff(lim: Limits, width: nat, area: Area, token: Token)
    requires ValidArea(lim, width, area) && area.times.start < U64_LIMIT
    ensures (forall m | ValidStore(lim, width, m) ::
              RangeHits(m, RangeFromArea(lim, width, area), DEFAULT_IGNORE) == AreaHits(m, area, DEFAULT_IGNORE))
      <==> AreaRangeExact(lim, area)
  {
    if AreaRangeExact(lim, area) {
      forall m | ValidStore(lim, width, m)
        ensures RangeHits(m, RangeFromArea(lim, width, area), DEFAULT_IGNORE) == AreaHits(m, area, DEFAULT_IGNORE)
      {
        AreaQueryAgrees(lim, width, area, DEFAULT_IGNORE, m);
      }
    } else {
      var s, p := RangeDisagrees(lim, width, area);
      var k, r := Key(s, p), SingleRecord(token, area.times.start);
      var m := map[k := r];
      assert k in m && m[k] == r;
      assert ValidStore(lim, width, m);
      assert k in RangeHits(m, RangeFromArea(lim, width, area), DEFAULT_IGNORE) <==> k !in AreaHits(m, area, DEFAULT_IGNORE);
    }
  }

  lemma AreaQueryAgrees(lim: Limits, width: nat, area: Area, ignore: QueryIgnoreParams, m: Store)
    requires ValidArea(lim, width, area) && AreaRangeExact(lim, area) && ValidStore(lim, width, m)
    ensures RangeHits(m, RangeFromArea(lim, width, area), ignore) == AreaHits(m, area, ignore)
  {
    RangeFromAreaExactIff(lim, width, area);
    forall k | k in m
      ensures RangeIncludes(RangeFromArea(lim, width, area), k.subspace, k.path, m[k].timestamp)
        <==> AreaIncludes(area, k.subspace, k.path, m[k].timestamp)
    {
      assert ValidRecord(lim, width, k, m[k]);
    }
  }

  /** The range of an area never holds an entry of another subspace or time, and of the paths below
      the area it holds the path itself. */
  lemma AreaQueryKeepsPath(lim: Limits, width: nat, area: Area, m: Store, k: Key)
    requires ValidArea(lim, width, area) && ValidStore(lim, width, m) && k in m && k.path == area.path
    ensures k in RangeHits(m, RangeFromArea(lim, width, area), DEFAULT_IGNORE) <==> k in AreaHits(m, area, DEFAULT_IGNORE)
  {
    SubspaceRangeMeaning(lim, width, area, k.subspace);
    SuccessorMeaning(lim, area.path);
  }

  lemma {:induction false} SubsetSize<T>(a: set<T>, b: set<T>)
    requires a <= b
    ensures |a| <= |b|
  {
    if a != {} {
      var x :| x in a;
      SubsetSize(a - {x}, b - {x});
    }
  }
}
