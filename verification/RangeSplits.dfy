/** Splitting a range of times into sub-ranges of about equal size, by a walk over the tree that is
    sorted by timestamps. */
module RangeSplits {
  import opened Wrappers
  import opened ByteStrings
  import opened Paths
  import opened Grouping
  import opened Entries
  import opened StoreEvents
  import opened KeyCodec
  import opened Queries
  import opened SledTrees
  import opened SledQueries
  import opened SledStores
  import opened Fingerprints
  import opened Cuts

  // ---------------------------------------------------------------- the walk

  /** Keys in ascending order. */
  predicate Ascending(keys: seq<seq<byte>>) {
    forall i, j | 0 <= i < j < |keys| :: BytesLess(keys[i], keys[j])
  }

  method WalkRange(tree: Tree, first: seq<byte>, last: seq<byte>) returns (keys: seq<seq<byte>>)
    ensures Ascending(keys) && forall b :: b in keys <==> b in ScanRange(tree, first, last)
  {
    keys := [];
    var remaining := ScanRange(tree, first, last);
    while remaining != {}
      invariant Ascending(keys) && remaining <= ScanRange(tree, first, last)
      invariant forall b :: b in ScanRange(tree, first, last) <==> b in keys || b in remaining
      invariant forall i, c | 0 <= i < |keys| && c in remaining :: BytesLess(keys[i], c)
      decreases remaining
    {
      var b := TakeLeast(remaining);
      keys := keys + [b];
      remaining := remaining - {b};
    }
  }

  function FirstKey(range: Range3d): seq<byte>
    requires range.times.start < U64_LIMIT
  {
    TspKey(range.subspaces.start, range.paths.start, range.times.start)
  }

  function LastKey(lim: Limits, width: nat, range: Range3d): seq<byte>
    requires ValidTimes(range.times)
  {
    TspKey(LastSubspace(width, range), LastPath(lim, range), LastTime(range))
  }

  function StampOf(of: map<seq<byte>, Key>, m: Store, b: seq<byte>): nat
    requires b in of && of[b] in m
  {
    m[of[b]].timestamp
  }

  /** The range excludes no place: it is restricted in time only. */
  ghost predicate AllPlaces(lim: Limits, width: nat, range: Range3d) {
    forall s, p | ValidSubspace(width, s) && ValidPath(lim, p) ::
      SubspacesInclude(range.subspaces, s) && PathsInclude(range.paths, p)
  }

  /** Whether the walk over a range meets an entry. */
  predicate Meets(lim: Limits, width: nat, range: Range3d, k: Key, t: nat)
    requires ValidTimes(range.times)
  {
    t < U64_LIMIT && BytesLeq(FirstKey(range), TspKey(k.subspace, k.path, t))
    && BytesLeq(TspKey(k.subspace, k.path, t), LastKey(lim, width, range))
  }

  lemma MetFromStart(s0: SubspaceId, p0: Path, t0: nat, s: SubspaceId, p: Path, t: nat)
    requires |s0| == |s| && t0 < U64_LIMIT && t < U64_LIMIT
    ensures BytesLeq(TspKey(s0, p0, t0), TspKey(s, p, t)) <==>
      t0 < t || (t0 == t && (BytesLess(s0, s) || (s0 == s && PathLeq(p0, p))))
  {
    TspKeyOrder(s0, p0, t0, s, p, t);
    if TspKey(s0, p0, t0) == TspKey(s, p, t) { TspKeyInjective(s0, p0, t0, s, p, t); }
  }

  /** Whatever the walk meets lies between the start and the end of the times, and it meets the whole range. */
  lemma MetTimes(lim: Limits, width: nat, range: Range3d, k: Key, t: nat)
    requires ValidRange(lim, width, range) && ValidSubspace(width, k.subspace) && ValidPath(lim, k.path) && t < U64_LIMIT
    ensures Meets(lim, width, range, k, t) ==> range.times.start <= t <= LastTime(range)
    ensures RangeIncludes(range, k.subspace, k.path, t) ==> Meets(lim, width, range, k, t)
    ensures range.times.start < t < LastTime(range) ==> Meets(lim, width, range, k, t)
  {
    if range.subspaces.end.Open? { AllMaxIsGreatest(k.subspace, width); }
    if range.paths.end.Open? { MaxFromIsGreatest(lim.mcl, lim.mcc, lim.mpl, k.path); }
    MetFromStart(range.subspaces.start, range.paths.start, range.times.start, k.subspace, k.path, t);
    MetFromStart(k.subspace, k.path, t, LastSubspace(width, range), LastPath(lim, range), LastTime(range));
  }

  /** The walk over a range of times meets the entries up to its end, those at the end included. */
  lemma WalkedTimes(lim: Limits, width: nat, range: Range3d, k: Key, t: nat)
    requires ValidRange(lim, width, range) && AllPlaces(lim, width, range)
    requires ValidSubspace(width, k.subspace) && ValidPath(lim, k.path) && t < U64_LIMIT
    ensures Meets(lim, width, range, k, t) <==> range.times.start <= t <= LastTime(range)
  {
    MetTimes(lim, width, range, k, t);
    MetFromStart(range.subspaces.start, range.paths.start, range.times.start, k.subspace, k.path, t);
    MetFromStart(k.subspace, k.path, t, LastSubspace(width, range), LastPath(lim, range), LastTime(range));
    assert SubspacesInclude(range.subspaces, LastSubspace(width, range)) && PathsInclude(range.paths, k.path);
    LessIrreflexive(LastSubspace(width, range));
    AllMaxIsGreatest(k.subspace, width);
    if range.paths.end.Open? { MaxFromIsGreatest(lim.mcl, lim.mcc, lim.mpl, k.path); }
  }

  /** The entries that the walk meets. */
  function Met(lim: Limits, width: nat, m: Store, range: Range3d): (ks: set<Key>)
    requires ValidTimes(range.times)
    ensures ks <= m.Keys
  {
    set k | k in m && Meets(lim, width, range, k, m[k].timestamp)
  }

  /** Without an end in time, the walk meets precisely the entries of the range, in every store, if and
      only if the range excludes no place. */
  lemma OpenWalkExactIff(lim: Limits, width: nat, range: Range3d, token: Token)
    requires ValidRange(lim, width, range) && range.times.end.Open? && range.times.start + 2 < U64_LIMIT
    ensures (forall m: Store | ValidStore(lim, width, m) :: Met(lim, width, m, range) == RangeHits(m, range, DEFAULT_IGNORE))
      <==> AllPlaces(lim, width, range)
  {
    if AllPlaces(lim, width, range) {
      forall m: Store | ValidStore(lim, width, m) ensures Met(lim, width, m, range) == RangeHits(m, range, DEFAULT_IGNORE) {
        forall k | k in m ensures k in Met(lim, width, m, range) <==> k in RangeHits(m, range, DEFAULT_IGNORE) {
          assert ValidRecord(lim, width, k, m[k]);
          WalkedTimes(lim, width, range, k, m[k].timestamp);
        }
      }
    } else {
      var s, p :| ValidSubspace(width, s) && ValidPath(lim, p) && !(SubspacesInclude(range.subspaces, s) && PathsInclude(range.paths, p));
      var m := OutsiderMet(lim, width, range, s, p, token);
      assert Met(lim, width, m, range) != RangeHits(m, range, DEFAULT_IGNORE);
    }
  }

  /** A later entry outside of the range is met. */
  lemma OutsiderMet(lim: Limits, width: nat, range: Range3d, s: SubspaceId, p: Path, token: Token) returns (m: Store)
    requires ValidRange(lim, width, range) && range.times.end.Open? && range.times.start + 2 < U64_LIMIT
    requires ValidSubspace(width, s) && ValidPath(lim, p) && !(SubspacesInclude(range.subspaces, s) && PathsInclude(range.paths, p))
    ensures ValidStore(lim, width, m) && |m| == 1
    ensures Met(lim, width, m, range) == m.Keys && RangeHits(m, range, DEFAULT_IGNORE) == {}
  {
    var k, r := Key(s, p), Record(range.times.start + 1, 0, 0, token, 0);
    m := map[k := r];
    assert k in m && m[k] == r;
    MetTimes(lim, width, range, k, r.timestamp);
  }

  // ---------------------------------------------------------------- where the range ends in the walk

  function StampsOf(m: Store, order: seq<Key>): seq<nat>
    requires forall i | 0 <= i < |order| :: order[i] in m
  {
    seq(|order|, i requires 0 <= i < |order| => m[order[i]].timestamp)
  }

  /** All entries that the walk meets, by their times. */
  ghost predicate WalkOrder(lim: Limits, width: nat, m: Store, range: Range3d, order: seq<Key>)
    requires ValidTimes(range.times)
  {
    match range
    case Range3d(_, _, _) =>
      && Lists(order, Met(lim, width, m, range)) && (forall i | 0 <= i < |order| :: order[i] in m)
      && forall i, j | 0 <= i < j < |order| :: m[order[i]].timestamp <= m[order[j]].timestamp
  }

  function OrderOf(of: map<seq<byte>, Key>, keys: seq<seq<byte>>): seq<Key>
    requires forall j | 0 <= j < |keys| :: keys[j] in of
  {
    seq(|keys|, i requires 0 <= i < |keys| => of[keys[i]])
  }

  lemma {:induction false} WalkLists(of: map<seq<byte>, Key>, at: map<Key, seq<byte>>, keys: seq<seq<byte>>)
    requires Ascending(keys) && forall j | 0 <= j < |keys| :: keys[j] in of && of[keys[j]] in at && at[of[keys[j]]] == keys[j]
    ensures Lists(OrderOf(of, keys), Walked(of, keys))
  {
    if keys != [] {
      var n := |keys| - 1;
      WalkLists(of, at, keys[..n]);
      NewInWalk(of, at, keys);
      ListsAppend(OrderOf(of, keys[..n]), Walked(of, keys[..n]), of[keys[n]]);
      assert Walked(of, keys) == Walked(of, keys[..n]) + {of[keys[n]]};
      assert OrderOf(of, keys) == OrderOf(of, keys[..n]) + [of[keys[n]]];
    }
  }

  lemma NewInWalk(of: map<seq<byte>, Key>, at: map<Key, seq<byte>>, keys: seq<seq<byte>>)
    requires keys != [] && Ascending(keys)
    requires forall j | 0 <= j < |keys| :: keys[j] in of && of[keys[j]] in at && at[of[keys[j]]] == keys[j]
    ensures of[keys[|keys| - 1]] !in Walked(of, keys[..|keys| - 1])
  {
    var n := |keys| - 1;
    forall j | 0 <= j < n ensures of[keys[j]] != of[keys[n]] {
      if keys[j] == keys[n] { LessIrreflexive(keys[n]); }
    }
  }

  function Walked(of: map<seq<byte>, Key>, keys: seq<seq<byte>>): set<Key>
    requires forall j | 0 <= j < |keys| :: keys[j] in of
  {
    set j | 0 <= j < |keys| :: of[keys[j]]
  }

  lemma {:induction false} WalkedCount(of: map<seq<byte>, Key>, at: map<Key, seq<byte>>, keys: seq<seq<byte>>)
    requires Ascending(keys) && forall j | 0 <= j < |keys| :: keys[j] in of && of[keys[j]] in at && at[of[keys[j]]] == keys[j]
    ensures |Walked(of, keys)| == |keys|
  {
    if keys != [] {
      var n := |keys| - 1;
      WalkedCount(of, at, keys[..n]);
      NewInWalk(of, at, keys);
      assert Walked(of, keys) == Walked(of, keys[..n]) + {of[keys[n]]};
    }
  }

  /** Timestamps do not decrease along the walk. */
  lemma StampsAscend(lim: Limits, width: nat, tsp: Tree, of: map<seq<byte>, Key>, m: Store, a: seq<byte>, b: seq<byte>)
    requires InTsp(lim, width, tsp, of, m) && a in of && b in of && BytesLess(a, b)
    ensures of[a] in m && of[b] in m && StampOf(of, m, a) <= StampOf(of, m, b)
  {
    var j, k := of[a], of[b];
    assert TspAt(m)[j] == a && TspAt(m)[k] == b;
    assert ValidRecord(lim, width, j, m[j]) && ValidRecord(lim, width, k, m[k]);
    TspKeyOrder(j.subspace, j.path, m[j].timestamp, k.subspace, k.path, m[k].timestamp);
  }

  /** The walk over a range, in order. */
  ghost predicate WalksOver(lim: Limits, width: nat, tsp: Tree, range: Range3d, keys: seq<seq<byte>>)
    requires ValidTimes(range.times)
  {
    Ascending(keys) && forall b :: b in keys <==> b in ScanRange(tsp, FirstKey(range), LastKey(lim, width, range))
  }

  lemma WalkedEntry(lim: Limits, width: nat, tsp: Tree, of: map<seq<byte>, Key>, m: Store, range: Range3d, keys: seq<seq<byte>>, j: nat)
    requires InTsp(lim, width, tsp, of, m) && ValidRange(lim, width, range)
    requires WalksOver(lim, width, tsp, range, keys) && j < |keys|
    ensures keys[j] in of && of[keys[j]] in m && TspAt(m)[of[keys[j]]] == keys[j]
    ensures of[keys[j]] in Met(lim, width, m, range) && range.times.start <= StampOf(of, m, keys[j]) <= LastTime(range)
  {
    var b := keys[j];
    assert b in keys && b in of && TspAt(m)[of[b]] == b;
    assert ValidRecord(lim, width, of[b], m[of[b]]);
    MetTimes(lim, width, range, of[b], m[of[b]].timestamp);
  }

  lemma WalkReaches(lim: Limits, width: nat, tsp: Tree, of: map<seq<byte>, Key>, m: Store, range: Range3d, keys: seq<seq<byte>>, k: Key)
    requires InTsp(lim, width, tsp, of, m) && ValidRange(lim, width, range)
    requires WalksOver(lim, width, tsp, range, keys) && k in Met(lim, width, m, range)
    ensures exists j :: 0 <= j < |keys| && keys[j] in of && of[keys[j]] == k
  {
    var b := TspAt(m)[k];
    assert b in of && of[b] == k && ValidRecord(lim, width, k, m[k]);
    assert b in keys;
    var j :| 0 <= j < |keys| && keys[j] == b;
  }

  /** The entries that the walk meets before the end of the range. */
  function MetBefore(lim: Limits, width: nat, m: Store, range: Range3d): (ks: set<Key>)
    requires ValidTimes(range.times)
    ensures ks <= m.Keys
  {
    set k | k in Met(lim, width, m, range) && Before(m[k].timestamp, range.times.end)
  }

  lemma HitsMet(lim: Limits, width: nat, m: Store, range: Range3d)
    requires ValidStore(lim, width, m) && ValidRange(lim, width, range)
    ensures RangeHits(m, range, DEFAULT_IGNORE) <= MetBefore(lim, width, m, range)
  {
    forall k | k in RangeHits(m, range, DEFAULT_IGNORE) ensures k in MetBefore(lim, width, m, range) {
      assert ValidRecord(lim, width, k, m[k]);
      MetTimes(lim, width, range, k, m[k].timestamp);
    }
  }

  /** What the walk over a range looks like. */
  lemma WalkMeets(lim: Limits, width: nat, tsp: Tree, of: map<seq<byte>, Key>, m: Store, range: Range3d, keys: seq<seq<byte>>)
    requires InTsp(lim, width, tsp, of, m) && ValidRange(lim, width, range) && WalksOver(lim, width, tsp, range, keys)
    ensures WalkHolds(of, m, keys, MetBefore(lim, width, m, range), range.times.end)
    ensures Walked(of, keys) == Met(lim, width, m, range) && |keys| == |Met(lim, width, m, range)|
    ensures forall j | 0 <= j < |keys| :: range.times.start <= StampOf(of, m, keys[j]) <= LastTime(range)
  {
    forall j | 0 <= j < |keys|
      ensures keys[j] in of && of[keys[j]] in m && TspAt(m)[of[keys[j]]] == keys[j]
      ensures of[keys[j]] in Met(lim, width, m, range) && range.times.start <= StampOf(of, m, keys[j]) <= LastTime(range)
    {
      WalkedEntry(lim, width, tsp, of, m, range, keys, j);
    }
    forall k | k in Met(lim, width, m, range) ensures exists j :: 0 <= j < |keys| && of[keys[j]] == k {
      WalkReaches(lim, width, tsp, of, m, range, keys, k);
    }
    assert Walked(of, keys) == Met(lim, width, m, range);
    WalkedCount(of, TspAt(m), keys);
  }

  /** The walk meets its entries by their times, and at least as many as are counted before the end. */
  lemma WalkIsOk(lim: Limits, width: nat, tsp: Tree, of: map<seq<byte>, Key>, m: Store, range: Range3d, keys: seq<seq<byte>>)
      returns (order: seq<Key>)
    requires InTsp(lim, width, tsp, of, m) && ValidRange(lim, width, range) && WalksOver(lim, width, tsp, range, keys)
    ensures (forall j | 0 <= j < |keys| :: keys[j] in of) && order == OrderOf(of, keys)
    ensures WalkOrder(lim, width, m, range, order)
    ensures WalkTimes(range.times, StampsOf(m, order), |RangeHits(m, range, DEFAULT_IGNORE)|)
  {
    WalkMeets(lim, width, tsp, of, m, range, keys);
    order := OrderOf(of, keys);
    WalkLists(of, TspAt(m), keys);
    InOrder(lim, width, tsp, of, m, keys);
    EarlyOnes(lim, width, tsp, of, m, range, keys);
    SortedWalk(lim, width, of, m, range, keys);
  }

  lemma SortedWalk(lim: Limits, width: nat, of: map<seq<byte>, Key>, m: Store, range: Range3d, keys: seq<seq<byte>>)
    requires ValidTimes(range.times) && forall j | 0 <= j < |keys| :: keys[j] in of && of[keys[j]] in m
    requires Lists(OrderOf(of, keys), Met(lim, width, m, range))
    requires forall i, j | 0 <= i < j < |keys| :: StampOf(of, m, keys[i]) <= StampOf(of, m, keys[j])
    requires forall j | 0 <= j < |keys| :: range.times.start <= StampOf(of, m, keys[j]) <= LastTime(range)
    requires |RangeHits(m, range, DEFAULT_IGNORE)| <= |keys|
    requires forall j | 0 <= j < |RangeHits(m, range, DEFAULT_IGNORE)| :: Before(StampOf(of, m, keys[j]), range.times.end)
    ensures WalkOrder(lim, width, m, range, OrderOf(of, keys))
    ensures WalkTimes(range.times, StampsOf(m, OrderOf(of, keys)), |RangeHits(m, range, DEFAULT_IGNORE)|)
  {
    var order := OrderOf(of, keys);
    assert forall j | 0 <= j < |keys| :: StampsOf(m, order)[j] == StampOf(of, m, keys[j]);
  }

  lemma InOrder(lim: Limits, width: nat, tsp: Tree, of: map<seq<byte>, Key>, m: Store, keys: seq<seq<byte>>)
    requires InTsp(lim, width, tsp, of, m) && Ascending(keys) && forall j | 0 <= j < |keys| :: keys[j] in of && of[keys[j]] in m
    ensures forall i, j | 0 <= i < j < |keys| :: StampOf(of, m, keys[i]) <= StampOf(of, m, keys[j])
  {
    forall i, j | 0 <= i < j < |keys| ensures StampOf(of, m, keys[i]) <= StampOf(of, m, keys[j]) {
      StampsAscend(lim, width, tsp, of, m, keys[i], keys[j]);
    }
  }

  lemma EarlyOnes(lim: Limits, width: nat, tsp: Tree, of: map<seq<byte>, Key>, m: Store, range: Range3d, keys: seq<seq<byte>>)
    requires InTsp(lim, width, tsp, of, m) && ValidRange(lim, width, range) && Ascending(keys)
    requires WalkHolds(of, m, keys, MetBefore(lim, width, m, range), range.times.end)
    ensures |RangeHits(m, range, DEFAULT_IGNORE)| <= |keys|
    ensures forall j | 0 <= j < |RangeHits(m, range, DEFAULT_IGNORE)| :: Before(StampOf(of, m, keys[j]), range.times.end)
  {
    var early := MetBefore(lim, width, m, range);
    HitsComeFirst(lim, width, tsp, of, m, keys, early, range.times.end);
    HitsMet(lim, width, m, range);
    SubsetSize(RangeHits(m, range, DEFAULT_IGNORE), early);
  }

  /** The walk holds some entries, and those before the end among them. */
  ghost predicate WalkHolds(of: map<seq<byte>, Key>, m: Store, keys: seq<seq<byte>>, hits: set<Key>, end: RangeEnd<nat>) {
    && (forall j | 0 <= j < |keys| :: keys[j] in of && of[keys[j]] in m && TspAt(m)[of[keys[j]]] == keys[j])
    && (forall j | 0 <= j < |keys| :: of[keys[j]] in hits <==> Before(StampOf(of, m, keys[j]), end))
    && (forall k | k in hits :: exists j :: 0 <= j < |keys| && of[keys[j]] == k)
  }

  /** Entries before the end come first, so that their number tells them apart. */
  lemma HitsComeFirst(lim: Limits, width: nat, tsp: Tree, of: map<seq<byte>, Key>, m: Store, keys: seq<seq<byte>>,
                      hits: set<Key>, end: RangeEnd<nat>)
    requires InTsp(lim, width, tsp, of, m) && Ascending(keys) && WalkHolds(of, m, keys, hits, end)
    ensures |hits| <= |keys|
    ensures forall j | 0 <= j < |keys| :: of[keys[j]] in hits <==> j < |hits|
  {
    assert hits <= Walked(of, keys);
    WalkedCount(of, TspAt(m), keys);
    SubsetSize(hits, Walked(of, keys));
    forall j | 0 <= j < |keys| ensures of[keys[j]] in hits <==> j < |hits| {
      if of[keys[j]] in hits {
        HitIsEarly(lim, width, tsp, of, m, keys, hits, end, j);
      } else {
        MissIsLate(lim, width, tsp, of, m, keys, hits, end, j);
      }
    }
  }

  lemma EarlyWalked(of: map<seq<byte>, Key>, m: Store, keys: seq<seq<byte>>, hits: set<Key>, n: nat)
    requires n <= |keys| && (forall i | 0 <= i < |keys| :: keys[i] in of) && forall i | 0 <= i < n :: of[keys[i]] in hits
    ensures Walked(of, keys[..n]) <= hits
  {}

  lemma HitIsEarly(lim: Limits, width: nat, tsp: Tree, of: map<seq<byte>, Key>, m: Store, keys: seq<seq<byte>>,
                   hits: set<Key>, end: RangeEnd<nat>, j: nat)
    requires InTsp(lim, width, tsp, of, m) && Ascending(keys) && WalkHolds(of, m, keys, hits, end)
    requires j < |keys| && of[keys[j]] in hits
    ensures j < |hits|
  {
    HitsUpTo(lim, width, tsp, of, m, keys, hits, end, j);
    EarlyWalked(of, m, keys, hits, j + 1);
    WalkedCount(of, TspAt(m), keys[..j + 1]);
    SubsetSize(Walked(of, keys[..j + 1]), hits);
  }

  lemma HitsUpTo(lim: Limits, width: nat, tsp: Tree, of: map<seq<byte>, Key>, m: Store, keys: seq<seq<byte>>,
                 hits: set<Key>, end: RangeEnd<nat>, j: nat)
    requires InTsp(lim, width, tsp, of, m) && Ascending(keys) && WalkHolds(of, m, keys, hits, end)
    requires j < |keys| && of[keys[j]] in hits
    ensures forall i | 0 <= i <= j :: of[keys[i]] in hits
  {
    forall i | 0 <= i <= j ensures of[keys[i]] in hits {
      if i < j { StampsAscend(lim, width, tsp, of, m, keys[i], keys[j]); }
    }
  }

  lemma MissIsLate(lim: Limits, width: nat, tsp: Tree, of: map<seq<byte>, Key>, m: Store, keys: seq<seq<byte>>,
                   hits: set<Key>, end: RangeEnd<nat>, j: nat)
    requires InTsp(lim, width, tsp, of, m) && Ascending(keys) && WalkHolds(of, m, keys, hits, end)
    requires j < |keys| && of[keys[j]] !in hits
    ensures |hits| <= j
  {
    var early := keys[..j];
    forall k | k in hits ensures k in Walked(of, early) {
      var i :| 0 <= i < |keys| && of[keys[i]] == k;
      if j < i { StampsAscend(lim, width, tsp, of, m, keys[j], keys[i]); }
      assert i < j && early[i] == keys[i];
    }
    WalkedCount(of, TspAt(m), early);
    SubsetSize(hits, Walked(of, early));
  }

  // ---------------------------------------------------------------- splits

  datatype SplitAction<+F> = SendEntries(count: nat) | SendFingerprint(fp: F)

  datatype RangeSplit<+F> = RangeSplit(range: Range3d, action: SplitAction<F>)

  function Slice(range: Range3d, start: nat, end: RangeEnd<nat>): Range3d {
    range.(times := Range(start, end))
  }

  /** The entries of a store between two times of a range. */
  function SliceHits(m: Store, range: Range3d, start: nat, end: RangeEnd<nat>): (ks: set<Key>)
    ensures ks <= m.Keys
  {
    RangeHits(m, Slice(range, start, end), DEFAULT_IGNORE)
  }

  /** What is announced of a part of a range: how many entries it has, or their fingerprint. */
  ghost function SplitOf<F>(o: Monoid<F>, ns: NamespaceId, m: Store, range: Range3d, minSize: nat, start: nat, end: RangeEnd<nat>)
      : RangeSplit<F>
  {
    var hits := SliceHits(m, range, start, end);
    RangeSplit(Slice(range, start, end), if |hits| < minSize then SendEntries(|hits|) else SendFingerprint(Fold(o, ns, m, hits)))
  }

  /** Splits that follow upon each other without gaps, up to a bound. */
  ghost predicate Tiles<F>(o: Monoid<F>, ns: NamespaceId, m: Store, range: Range3d, minSize: nat, splits: seq<RangeSplit<F>>, bound: nat) {
    if splits == [] then bound == range.times.start
    else
      var n := |splits| - 1;
      var from := splits[n].range.times.start;
      from < bound && splits[n] == SplitOf(o, ns, m, range, minSize, from, Closed(bound))
      && Tiles(o, ns, m, range, minSize, splits[..n], from)
  }

  /** Splits that reach to the end of the range. */
  ghost predicate Covers<F>(o: Monoid<F>, ns: NamespaceId, m: Store, range: Range3d, minSize: nat, splits: seq<RangeSplit<F>>) {
    splits != [] &&
    var n := |splits| - 1;
    var from := splits[n].range.times.start;
    && Before(from, range.times.end)
    && splits[n] == SplitOf(o, ns, m, range, minSize, from, range.times.end)
    && Tiles(o, ns, m, range, minSize, splits[..n], from)
  }

  function HitsOf<F>(m: Store, s: RangeSplit<F>): (ks: set<Key>)
    ensures ks <= m.Keys
  {
    RangeHits(m, s.range, DEFAULT_IGNORE)
  }

  function TotalSize<F>(m: Store, splits: seq<RangeSplit<F>>): nat {
    if splits == [] then 0 else TotalSize(m, splits[..|splits| - 1]) + |HitsOf(m, splits[|splits| - 1])|
  }

  ghost function TotalFingerprint<F>(o: Monoid<F>, ns: NamespaceId, m: Store, splits: seq<RangeSplit<F>>): F {
    if splits == [] then o.neutral
    else o.combine(TotalFingerprint(o, ns, m, splits[..|splits| - 1]), Fold(o, ns, m, HitsOf(m, splits[|splits| - 1])))
  }

  /** A bound inside a range of times divides its entries. */
  lemma SliceDivides(m: Store, range: Range3d, start: nat, bound: nat, end: RangeEnd<nat>)
    requires start <= bound && (end.Closed? ==> bound <= end.end)
    ensures SliceHits(m, range, start, Closed(bound)) + SliceHits(m, range, bound, end) == SliceHits(m, range, start, end)
    ensures SliceHits(m, range, start, Closed(bound)) !! SliceHits(m, range, bound, end)
  {}

  /** Up to the bound, tiles hold every entry once. */
  lemma {:induction false} TilesConserve<F(!new)>(o: Monoid<F>, ns: NamespaceId, m: Store, range: Range3d, minSize: nat,
                                                  splits: seq<RangeSplit<F>>, bound: nat)
    requires Lawful(o) && Tiles(o, ns, m, range, minSize, splits, bound)
    ensures range.times.start <= bound
    ensures TotalSize(m, splits) == |SliceHits(m, range, range.times.start, Closed(bound))|
    ensures TotalFingerprint(o, ns, m, splits) == Fold(o, ns, m, SliceHits(m, range, range.times.start, Closed(bound)))
    decreases |splits|
  {
    var t0 := range.times.start;
    if splits == [] {
      assert SliceHits(m, range, t0, Closed(t0)) == {};
    } else {
      var n := |splits| - 1;
      var from := splits[n].range.times.start;
      TilesConserve(o, ns, m, range, minSize, splits[..n], from);
      SliceDivides(m, range, t0, from, Closed(bound));
      FoldUnion(o, ns, m, SliceHits(m, range, t0, Closed(from)), SliceHits(m, range, from, Closed(bound)));
    }
  }

  /** The splits of a range hold every entry of it once: their sizes add up to its size, and their
      fingerprints combine to its fingerprint. */
  lemma SplitsConserve<F(!new)>(o: Monoid<F>, ns: NamespaceId, m: Store, range: Range3d, minSize: nat, splits: seq<RangeSplit<F>>)
    requires Lawful(o) && Covers(o, ns, m, range, minSize, splits)
    ensures TotalSize(m, splits) == |RangeHits(m, range, DEFAULT_IGNORE)|
    ensures RangeHits(m, range, DEFAULT_IGNORE) <= m.Keys
    ensures TotalFingerprint(o, ns, m, splits) == Fold(o, ns, m, RangeHits(m, range, DEFAULT_IGNORE))
  {
    var n, t0, end := |splits| - 1, range.times.start, range.times.end;
    var from := splits[n].range.times.start;
    TilesConserve(o, ns, m, range, minSize, splits[..n], from);
    SliceDivides(m, range, t0, from, end);
    FoldUnion(o, ns, m, SliceHits(m, range, t0, Closed(from)), SliceHits(m, range, from, end));
    assert Slice(range, t0, end) == range;
  }

  lemma {:induction false} TilesDisjoint<F>(o: Monoid<F>, ns: NamespaceId, m: Store, range: Range3d, minSize: nat,
                                            splits: seq<RangeSplit<F>>, bound: nat, t: nat)
    requires Tiles(o, ns, m, range, minSize, splits, bound)
    ensures range.times.start <= bound
    ensures range.times.start <= t < bound <==> exists i :: 0 <= i < |splits| && TimesInclude(splits[i].range.times, t)
    ensures forall i, j | 0 <= i < j < |splits| :: !(TimesInclude(splits[i].range.times, t) && TimesInclude(splits[j].range.times, t))
    decreases |splits|
  {
    if splits != [] {
      var n := |splits| - 1;
      var init := splits[..n];
      TilesDisjoint(o, ns, m, range, minSize, init, splits[n].range.times.start, t);
      assert forall i | 0 <= i < n :: init[i] == splits[i];
    }
  }

  /** Every time of the range lies in precisely one split, and no split reaches beyond. */
  lemma SplitsPartition<F>(o: Monoid<F>, ns: NamespaceId, m: Store, range: Range3d, minSize: nat, splits: seq<RangeSplit<F>>, t: nat)
    requires Covers(o, ns, m, range, minSize, splits)
    ensures TimesInclude(range.times, t) <==> exists i :: 0 <= i < |splits| && TimesInclude(splits[i].range.times, t)
    ensures forall i, j | 0 <= i < j < |splits| :: !(TimesInclude(splits[i].range.times, t) && TimesInclude(splits[j].range.times, t))
  {
    var n := |splits| - 1;
    var init := splits[..n];
    TilesDisjoint(o, ns, m, range, minSize, init, splits[n].range.times.start, t);
    assert forall i | 0 <= i < n :: init[i] == splits[i];
  }

  // ---------------------------------------------------------------- the splits of the slices

  /** The announcements of some slices. */
  ghost function SplitsOf<F>(o: Monoid<F>, ns: NamespaceId, m: Store, range: Range3d, minSize: nat, slices: seq<Range<nat>>): seq<RangeSplit<F>> {
    if slices == [] then []
    else
      var n := |slices| - 1;
      SplitsOf(o, ns, m, range, minSize, slices[..n]) + [SplitOf(o, ns, m, range, minSize, slices[n].start, slices[n].end)]
  }

  lemma {:induction false} SplitsLength<F(!new)>(o: Monoid<F>, ns: NamespaceId, m: Store, range: Range3d, minSize: nat, slices: seq<Range<nat>>)
    ensures |SplitsOf(o, ns, m, range, minSize, slices)| == |slices|
    ensures forall i | 0 <= i < |slices| :: SplitsOf(o, ns, m, range, minSize, slices)[i].range == Slice(range, slices[i].start, slices[i].end)
  {
    if slices != [] { SplitsLength(o, ns, m, range, minSize, slices[..|slices| - 1]); }
  }

  lemma {:induction false} SplitsTile<F(!new)>(o: Monoid<F>, ns: NamespaceId, m: Store, range: Range3d, minSize: nat, slices: seq<Range<nat>>, to: nat)
    requires Contiguous(slices, range.times.start, to)
    ensures Tiles(o, ns, m, range, minSize, SplitsOf(o, ns, m, range, minSize, slices), to)
  {
    if slices != [] {
      var n := |slices| - 1;
      SplitsTile(o, ns, m, range, minSize, slices[..n], slices[n].start);
      SplitsSnoc(o, ns, m, range, minSize, slices);
    }
  }

  lemma SplitsSnoc<F(!new)>(o: Monoid<F>, ns: NamespaceId, m: Store, range: Range3d, minSize: nat, slices: seq<Range<nat>>)
    requires slices != []
    ensures var n, splits := |slices| - 1, SplitsOf(o, ns, m, range, minSize, slices);
      && |splits| == n + 1 && splits[..n] == SplitsOf(o, ns, m, range, minSize, slices[..n])
      && splits[n] == SplitOf(o, ns, m, range, minSize, slices[n].start, slices[n].end)
  {
    SplitsLength(o, ns, m, range, minSize, slices[..|slices| - 1]);
  }

  lemma SplitsMore<F(!new)>(o: Monoid<F>, ns: NamespaceId, m: Store, range: Range3d, minSize: nat, slices: seq<Range<nat>>,
                            start: nat, end: RangeEnd<nat>)
    ensures SplitsOf(o, ns, m, range, minSize, slices + [Range(start, end)])
      == SplitsOf(o, ns, m, range, minSize, slices) + [SplitOf(o, ns, m, range, minSize, start, end)]
  {
    assert (slices + [Range(start, end)])[..|slices|] == slices;
  }

  lemma SplitsCover<F(!new)>(o: Monoid<F>, ns: NamespaceId, m: Store, range: Range3d, minSize: nat, slices: seq<Range<nat>>)
    requires CoversTimes(slices, range.times)
    ensures Covers(o, ns, m, range, minSize, SplitsOf(o, ns, m, range, minSize, slices))
  {
    var n := |slices| - 1;
    SplitsTile(o, ns, m, range, minSize, slices[..n], slices[n].start);
    SplitsSnoc(o, ns, m, range, minSize, slices);
  }

  /** Every time of a range lies in precisely one of some splits, and no other time in any. */
  ghost predicate Partitions<F>(splits: seq<RangeSplit<F>>, times: Range<nat>) {
    forall t: nat :: InOneOf(splits, times, t)
  }

  ghost predicate InOneOf<F>(splits: seq<RangeSplit<F>>, times: Range<nat>, t: nat) {
    && (TimesInclude(times, t) <==> exists i :: 0 <= i < |splits| && TimesInclude(splits[i].range.times, t))
    && forall i, j | 0 <= i < j < |splits| :: !(TimesInclude(splits[i].range.times, t) && TimesInclude(splits[j].range.times, t))
  }

  /** The splits of a range partition its times if and only if the walk does not overrun. */
  lemma PartitionIff<F(!new)>(o: Monoid<F>, ns: NamespaceId, m: Store, range: Range3d, minSize: nat, total: nat, target: nat, stamps: seq<nat>)
    requires WalkTimes(range.times, stamps, total) && 0 < total <= |stamps|
    ensures Partitions(SplitsOf(o, ns, m, range, minSize, CutAll(range.times, total, target, stamps).slices), range.times)
      <==> !Overruns(range.times, total, target, stamps)
  {
    var cover, c := CoverOf(range.times, total, target, stamps), CutAll(range.times, total, target, stamps);
    CoverCovers(range.times, total, target, stamps);
    CutsBehind(range.times, total, target, stamps);
    if Overruns(range.times, total, target, stamps) {
      var n := |cover.slices|;
      FirstSlice(c.slices[n..], cover.lower, c.lower);
      assert c.slices[n - 1] == c.slices[..n][n - 1] == cover.slices[n - 1];
      NotDisjoint(o, ns, m, range, minSize, c.slices, n);
    } else {
      assert c.slices == cover.slices;
      SplitsCover(o, ns, m, range, minSize, c.slices);
      CoverPartitions(o, ns, m, range, minSize, SplitsOf(o, ns, m, range, minSize, c.slices));
    }
  }

  /** Two slices that start together overlap. */
  lemma NotDisjoint<F(!new)>(o: Monoid<F>, ns: NamespaceId, m: Store, range: Range3d, minSize: nat, slices: seq<Range<nat>>, n: nat)
    requires 0 < n < |slices| && slices[n - 1].start == slices[n].start && slices[n - 1].end.Open?
    requires slices[n].end.Closed? && slices[n].start < slices[n].end.end
    ensures !Partitions(SplitsOf(o, ns, m, range, minSize, slices), range.times)
  {
    var splits, t := SplitsOf(o, ns, m, range, minSize, slices), slices[n].start;
    SplitsLength(o, ns, m, range, minSize, slices);
    assert TimesInclude(splits[n - 1].range.times, t) && TimesInclude(splits[n].range.times, t);
    assert !InOneOf(splits, range.times, t);
  }

  lemma CoverPartitions<F(!new)>(o: Monoid<F>, ns: NamespaceId, m: Store, range: Range3d, minSize: nat, splits: seq<RangeSplit<F>>)
    requires Covers(o, ns, m, range, minSize, splits)
    ensures Partitions(splits, range.times)
  {
    forall t: nat ensures InOneOf(splits, range.times, t) { SplitsPartition(o, ns, m, range, minSize, splits, t); }
  }

  /** Neither a range with an end in time nor one that excludes no place is overrun. */
  lemma NotOverrun(lim: Limits, width: nat, m: Store, range: Range3d, order: seq<Key>, target: nat)
    requires ValidStore(lim, width, m) && ValidRange(lim, width, range) && WalkOrder(lim, width, m, range, order)
    requires range.times.end.Closed? || AllPlaces(lim, width, range)
    requires RangeHits(m, range, DEFAULT_IGNORE) != {} && |RangeHits(m, range, DEFAULT_IGNORE)| <= |order|
    ensures 0 < |RangeHits(m, range, DEFAULT_IGNORE)|
    ensures !Overruns(range.times, |RangeHits(m, range, DEFAULT_IGNORE)|, target, StampsOf(m, order))
  {
    if range.times.end.Open? {
      ListsMembers(order, Met(lim, width, m, range));
      forall k | k in m ensures k in Met(lim, width, m, range) <==> k in RangeHits(m, range, DEFAULT_IGNORE) {
        assert ValidRecord(lim, width, k, m[k]);
        WalkedTimes(lim, width, range, k, m[k].timestamp);
      }
      assert Met(lim, width, m, range) == RangeHits(m, range, DEFAULT_IGNORE);
    }
  }

  // ---------------------------------------------------------------- the producer

  datatype Production<+F> = Produced(split: RangeSplit<F>) | Finished | Underflow

  class SplitProducer<F(!new)> {
    const store: SledStore
    const range: Range3d
    const o: Monoid<F>
    const minRangeSize: nat
    const targetSize: nat
    const totalCount: nat
    const iter: seq<seq<byte>>
    var next: nat
    var currentSize: nat
    var lowerBound: nat
    ghost var slices: seq<Range<nat>>
    ghost const of: map<seq<byte>, Key>
    ghost const m: Store
    ghost const stamps: seq<nat>

    ghost predicate Walks()
      reads store
    {
      && store.Valid() && store.view == m && store.tspOf == of
      && ValidRange(store.lim, store.width, range) && MaxPathExists(store.lim) && Lawful(o)
      && |stamps| == |iter| && WalkTimes(range.times, stamps, totalCount)
      && forall j | 0 <= j < |iter| :: iter[j] in of && of[iter[j]] in m && StampOf(of, m, iter[j]) == stamps[j] < U64_LIMIT
    }

    /** The entries visited so far were cut as `CutAll` says. */
    ghost predicate Valid()
      reads this, store
    {
      && Walks() && next <= |iter| && lowerBound < U64_LIMIT && (totalCount == 0 ==> next == 0)
      && State() == CutUpTo(range.times, totalCount, targetSize, stamps, next)
    }

    /** A split was announced for the new slice, if there is one. */
    ghost predicate Announced(was: seq<Range<nat>>, now: seq<Range<nat>>, s: Option<RangeSplit<F>>) {
      match s
      case None => now == was
      case Some(split) =>
        exists start, end :: now == was + [Range(start, end)] && split == SplitOf(o, store.namespace, m, range, minRangeSize, start, end)
    }

    lemma EmittedMore(was: seq<Range<nat>>, now: seq<Range<nat>>, s: Option<RangeSplit<F>>)
      requires Announced(was, now, s)
      ensures SplitsOf(o, store.namespace, m, range, minRangeSize, now)
        == SplitsOf(o, store.namespace, m, range, minRangeSize, was) + if s.Some? then [s.value] else []
    {
      if s.Some? {
        var start, end :| now == was + [Range(start, end)]
          && s.value == SplitOf(o, store.namespace, m, range, minRangeSize, start, end);
        SplitsMore(o, store.namespace, m, range, minRangeSize, was, start, end);
      }
    }

    ghost function State(): Cut
      reads this`slices, this`currentSize, this`lowerBound
    {
      Cut(slices, currentSize, lowerBound)
    }

    /** The announcements made so far. */
    ghost function Emitted(): seq<RangeSplit<F>>
      reads this`slices
    {
      SplitsOf(o, store.namespace, m, range, minRangeSize, slices)
    }

    constructor (store: SledStore, range: Range3d, o: Monoid<F>, minRangeSize: nat, targetSize: nat, totalCount: nat,
                 iter: seq<seq<byte>>, ghost order: seq<Key>)
      requires store.Valid() && ValidRange(store.lim, store.width, range) && MaxPathExists(store.lim) && Lawful(o)
      requires (forall j | 0 <= j < |iter| :: iter[j] in store.tspOf) && order == OrderOf(store.tspOf, iter)
      requires (forall i | 0 <= i < |order| :: order[i] in store.view) && WalkTimes(range.times, StampsOf(store.view, order), totalCount)
      ensures Valid() && Emitted() == [] && this.store == store && this.range == range && this.o == o
      ensures this.minRangeSize == minRangeSize && this.targetSize == targetSize && this.totalCount == totalCount
      ensures m == store.view && next == 0 && stamps == StampsOf(store.view, order)
    {
      this.store, this.range, this.o := store, range, o;
      this.minRangeSize, this.targetSize, this.totalCount, this.iter := minRangeSize, targetSize, totalCount, iter;
      next, currentSize, lowerBound, slices := 0, 0, range.times.start, [];
      of, m, stamps := store.tspOf, store.view, StampsOf(store.view, order);
      new;
      forall j | 0 <= j < |iter| ensures StampOf(of, m, iter[j]) == stamps[j] < U64_LIMIT {
        assert order[j] == of[iter[j]] && ValidRecord(store.lim, store.width, order[j], m[order[j]]);
      }
    }

    /** Summarise a part of the range. */
    method Announce(start: nat, end: RangeEnd<nat>) returns (s: RangeSplit<F>)
      requires Walks() && ValidTimes(Range(start, end))
      ensures s == SplitOf(o, store.namespace, m, range, minRangeSize, start, end)
    {
      var newRange := Slice(range, start, end);
      var fp, size := store.Summarise(newRange, o);
      s := RangeSplit(newRange, if size < minRangeSize then SendEntries(size) else SendFingerprint(fp));
    }

    /** The timestamp in a key of the walk. */
    method TimestampAt(i: nat) returns (t: nat)
      requires Walks() && i < |iter|
      ensures t == stamps[i]
    {
      ghost var k := of[iter[i]];
      assert TspAt(m)[k] == iter[i] && ValidRecord(store.lim, store.width, k, m[k]);
      var s, p;
      t, s, p := DecodeTspEntryKey(store.width, iter[i], k.subspace, k.path, m[k].timestamp);
    }

    /** The next split, or the end. Where nothing was counted but something is walked, the index of the
        last entry underflows. */
    method Produce() returns (r: Production<F>)
      requires Valid()
      modifies this
      ensures Valid() && old(next) <= next
      ensures r.Underflow? <==> totalCount == 0 && iter != []
      ensures Emitted() == old(Emitted()) + if r.Produced? then [r.split] else []
      ensures (r.Produced? ==> old(next) < next) && (r.Finished? ==> next == |iter|)
      decreases |iter| - next, 1
    {
      if next == |iter| { return Finished; }
      if totalCount == 0 { return Underflow; }
      r := ProduceFurther();
    }

    method ProduceFurther() returns (r: Production<F>)
      requires Valid() && next < |iter| && totalCount > 0
      modifies this
      ensures Valid() && old(next) <= next && !r.Underflow? && (r.Finished? ==> next == |iter|)
      ensures Emitted() == old(Emitted()) + if r.Produced? then [r.split] else []
      ensures r.Produced? ==> old(next) < next
      decreases |iter| - next, 0
    {
      ghost var was := slices;
      var s := VisitNext();
      EmittedMore(was, slices, s);
      if s.Some? { return Produced(s.value); }
      r := Produce();
    }

    /** One more walked entry: it closes a split, or it is passed over. */
    method VisitNext() returns (s: Option<RangeSplit<F>>)
      requires Valid() && next < |iter| && totalCount > 0
      modifies this`next, this`currentSize, this`lowerBound, this`slices
      ensures Valid() && next == old(next) + 1 && Announced(old(slices), slices, s)
    {
      var upper;
      ghost var after;
      upper, s, after := AnnounceNext();
      MoveOn(upper, after);
    }

    /** Where to cut at the next entry, and what to announce there. */
    method AnnounceNext() returns (upper: Option<RangeEnd<nat>>, s: Option<RangeSplit<F>>, ghost after: seq<Range<nat>>)
      requires Walks() && next < |iter| && lowerBound < U64_LIMIT
      ensures upper == CutWhere(range.times, totalCount, targetSize, currentSize + 1, next, stamps[next])
      ensures upper.Some? && upper.value.Closed? ==> upper.value.end < U64_LIMIT
      ensures after == Moved(State(), upper).slices && Announced(slices, after, s)
    {
      upper := UpperBound();
      s, after := AnnounceUpTo(upper);
    }

    /** Where to cut at the next entry, if anywhere. */
    method UpperBound() returns (upper: Option<RangeEnd<nat>>)
      requires Walks() && next < |iter|
      ensures upper == CutWhere(range.times, totalCount, targetSize, currentSize + 1, next, stamps[next])
      ensures upper.Some? && upper.value.Closed? ==> upper.value.end < U64_LIMIT
    {
      if next == totalCount - 1 { return Some(range.times.end); }
      if currentSize + 1 <= targetSize { return None; }
      var timestamp := TimestampAt(next);
      return Some(Closed(timestamp));
    }

    /** Announce the current split, unless no time has passed. */
    method AnnounceUpTo(upper: Option<RangeEnd<nat>>) returns (s: Option<RangeSplit<F>>, ghost after: seq<Range<nat>>)
      requires Walks() && lowerBound < U64_LIMIT && (upper.Some? && upper.value.Closed? ==> upper.value.end < U64_LIMIT)
      ensures after == Moved(State(), upper).slices && Announced(slices, after, s)
    {
      after := Moved(State(), upper).slices;
      if upper.None? || (upper.value.Closed? && lowerBound >= upper.value.end) { return None, after; }
      var split := Announce(lowerBound, upper.value);
      assert after == slices + [Range(lowerBound, upper.value)];
      return Some(split), after;
    }

    /** Count the entry, and start the next split. */
    method MoveOn(upper: Option<RangeEnd<nat>>, ghost after: seq<Range<nat>>)
      requires lowerBound < U64_LIMIT && (upper.Some? && upper.value.Closed? ==> upper.value.end < U64_LIMIT)
      requires next < |stamps| && State() == CutUpTo(range.times, totalCount, targetSize, stamps, next)
      requires upper == CutWhere(range.times, totalCount, targetSize, currentSize + 1, next, stamps[next])
      requires after == Moved(State(), upper).slices
      modifies this`next, this`currentSize, this`lowerBound, this`slices
      ensures next == old(next) + 1 && lowerBound < U64_LIMIT && slices == after
      ensures State() == CutUpTo(range.times, totalCount, targetSize, stamps, next)
    {
      ghost var moved := Moved(State(), upper);
      currentSize := currentSize + 1;
      if upper.Some? && (upper.value.Open? || lowerBound < upper.value.end) {
        slices := slices + [Range(lowerBound, upper.value)];
        match upper.value {
          case Closed(upperTimestamp) =>
            lowerBound := upperTimestamp;
            currentSize := 0;
          case Open =>
        }
      }
      next := next + 1;
      assert State() == moved;
    }
  }

  function TargetSize(count: nat, targetSplitCount: nat): nat
    requires 0 < targetSplitCount
  {
    count / targetSplitCount
  }

  /** Start splitting: count the entries, and walk the tree sorted by timestamps. */
  method PartitionRange<F(!new)>(store: SledStore, range: Range3d, o: Monoid<F>, minRangeSize: nat, targetSplitCount: nat)
      returns (p: SplitProducer<F>, ghost order: seq<Key>)
    requires store.Valid() && ValidRange(store.lim, store.width, range) && MaxPathExists(store.lim) && Lawful(o) && 0 < targetSplitCount
    ensures fresh(p) && p.Valid() && p.Emitted() == [] && p.store == store && p.m == store.view
    ensures p.range == range && p.o == o && p.minRangeSize == minRangeSize && p.next == 0
    ensures p.totalCount == |RangeHits(store.view, range, DEFAULT_IGNORE)| && p.targetSize == TargetSize(p.totalCount, targetSplitCount)
    ensures WalkOrder(store.lim, store.width, store.view, range, order) && p.stamps == StampsOf(store.view, order)
  {
    var count, iter;
    count, iter, order := StartWalk(store, range, o);
    p := new SplitProducer(store, range, o, minRangeSize, TargetSize(count, targetSplitCount), count, iter, order);
  }

  method StartWalk<F(!new)>(store: SledStore, range: Range3d, o: Monoid<F>)
      returns (count: nat, iter: seq<seq<byte>>, ghost order: seq<Key>)
    requires store.Valid() && ValidRange(store.lim, store.width, range) && MaxPathExists(store.lim) && Lawful(o)
    ensures count == |RangeHits(store.view, range, DEFAULT_IGNORE)|
    ensures (forall j | 0 <= j < |iter| :: iter[j] in store.tspOf) && order == OrderOf(store.tspOf, iter)
    ensures WalkOrder(store.lim, store.width, store.view, range, order) && WalkTimes(range.times, StampsOf(store.view, order), count)
  {
    var _, size := store.Summarise(range, o);
    count := size;
    var maxPath := NewMaxPath(store.lim);
    var last := EncodeTspEntryKey(LastSubspace(store.width, range), EndOr(range.paths.end, maxPath.value), LastTime(range));
    var first := EncodeTspEntryKey(range.subspaces.start, range.paths.start, range.times.start);
    iter := WalkRange(store.tsp, first, last);
    order := WalkIsOk(store.lim, store.width, store.tsp, store.tspOf, store.view, range, iter);
  }

  /** All splits of a range. Production fails exactly if the range is empty and the walk is not. */
  method AllSplits<F(!new)>(store: SledStore, range: Range3d, o: Monoid<F>, minRangeSize: nat, targetSplitCount: nat)
      returns (splits: Option<seq<RangeSplit<F>>>, ghost order: seq<Key>)
    requires store.Valid() && ValidRange(store.lim, store.width, range) && MaxPathExists(store.lim) && Lawful(o) && 0 < targetSplitCount
    ensures WalkOrder(store.lim, store.width, store.view, range, order)
    ensures |RangeHits(store.view, range, DEFAULT_IGNORE)| <= |order|
    ensures splits.None? <==> RangeHits(store.view, range, DEFAULT_IGNORE) == {} && order != []
    ensures splits.Some? ==> SplitsWell(o, store.namespace, store.view, range, minRangeSize, targetSplitCount, StampsOf(store.view, order), splits.value)
  {
    var p;
    p, order := PartitionRange(store, range, o, minRangeSize, targetSplitCount);
    splits := DrainProducer(p);
    Finish(o, store.namespace, store.view, range, minRangeSize, targetSplitCount, p.stamps);
  }

  /** Each split is announced truthfully. If the range has entries, the splits partition its times, and hold
      all of its entries, in no more parts than were asked for, if and only if the walk does not overrun. */
  ghost predicate SplitsWell<F(!new)>(o: Monoid<F>, ns: NamespaceId, m: Store, range: Range3d, minSize: nat, splitCount: nat,
                                      stamps: seq<nat>, splits: seq<RangeSplit<F>>)
    requires 0 < splitCount && |RangeHits(m, range, DEFAULT_IGNORE)| <= |stamps|
  {
    var hits := RangeHits(m, range, DEFAULT_IGNORE);
    && (forall i | 0 <= i < |splits| :: TrueLabel(o, ns, m, minSize, splits[i]))
    && if hits == {} then splits == []
       else if Overruns(range.times, |hits|, TargetSize(|hits|, splitCount), stamps) then !Partitions(splits, range.times)
       else Partitions(splits, range.times) && Conserves(o, ns, m, range, minSize, splits) && |splits| <= splitCount
  }

  method DrainProducer<F(!new)>(p: SplitProducer<F>) returns (splits: Option<seq<RangeSplit<F>>>)
    requires p.Valid() && p.Emitted() == []
    modifies p
    ensures splits.None? <==> p.totalCount == 0 && p.stamps != []
    ensures splits.Some? ==> splits.value == SplitsOf(p.o, p.store.namespace, p.m, p.range, p.minRangeSize,
      CutAll(p.range.times, p.totalCount, p.targetSize, p.stamps).slices)
  {
    var all := [];
    while true
      invariant p.Valid() && all == p.Emitted()
      decreases |p.iter| - p.next
    {
      var r := p.Produce();
      match r {
        case Underflow => return None;
        case Finished =>
          CutUpToIsCutAll(p.range.times, p.totalCount, p.targetSize, p.stamps, p.next);
          assert p.stamps[..p.next] == p.stamps;
          return Some(all);
        case Produced(s) => all := all + [s];
      }
    }
  }

  /** What the splits amount to once the walk is over. */
  lemma Finish<F(!new)>(o: Monoid<F>, ns: NamespaceId, m: Store, range: Range3d, minSize: nat, splitCount: nat, stamps: seq<nat>)
    requires Lawful(o) && 0 < splitCount && WalkTimes(range.times, stamps, |RangeHits(m, range, DEFAULT_IGNORE)|)
    ensures var total := |RangeHits(m, range, DEFAULT_IGNORE)|;
      total > 0 || stamps == [] ==>
        SplitsWell(o, ns, m, range, minSize, splitCount, stamps,
          SplitsOf(o, ns, m, range, minSize, CutAll(range.times, total, TargetSize(total, splitCount), stamps).slices))
  {
    var total := |RangeHits(m, range, DEFAULT_IGNORE)|;
    var target := TargetSize(total, splitCount);
    LabelsAreTrue(o, ns, m, range, minSize, CutAll(range.times, total, target, stamps).slices);
    SplitsLength(o, ns, m, range, minSize, CutAll(range.times, total, target, stamps).slices);
    if total > 0 {
      PartitionIff(o, ns, m, range, minSize, total, target, stamps);
      SmallPartition(o, ns, m, range, minSize, total, splitCount, stamps);
      if !Overruns(range.times, total, target, stamps) { NoOverrunConserves(o, ns, m, range, minSize, total, target, stamps); }
    }
  }

  lemma SmallPartition<F(!new)>(o: Monoid<F>, ns: NamespaceId, m: Store, range: Range3d, minSize: nat, total: nat, splitCount: nat, stamps: seq<nat>)
    requires 0 < splitCount && 0 < total <= |stamps| && WalkTimes(range.times, stamps, total)
    ensures var slices := CutAll(range.times, total, TargetSize(total, splitCount), stamps).slices;
      !Overruns(range.times, total, TargetSize(total, splitCount), stamps) ==> |SplitsOf(o, ns, m, range, minSize, slices)| <= splitCount
  {
    var target := TargetSize(total, splitCount);
    CoverIsSmall(range.times, total, splitCount, target, stamps);
    CutsBehind(range.times, total, target, stamps);
    SplitsLength(o, ns, m, range, minSize, CutAll(range.times, total, target, stamps).slices);
  }

  /** A split announces the number of its entries if there are few, and otherwise their fingerprint. */
  ghost predicate TrueLabel<F>(o: Monoid<F>, ns: NamespaceId, m: Store, minSize: nat, s: RangeSplit<F>) {
    match s.action
    case SendEntries(n) => n == |HitsOf(m, s)| && n < minSize
    case SendFingerprint(fp) => |HitsOf(m, s)| >= minSize && fp == Fold(o, ns, m, HitsOf(m, s))
  }

  lemma {:induction false} LabelsAreTrue<F(!new)>(o: Monoid<F>, ns: NamespaceId, m: Store, range: Range3d, minSize: nat, slices: seq<Range<nat>>)
    ensures forall s | s in SplitsOf(o, ns, m, range, minSize, slices) :: TrueLabel(o, ns, m, minSize, s)
    decreases |slices|
  {
    if slices != [] { LabelsAreTrue(o, ns, m, range, minSize, slices[..|slices| - 1]); }
  }

  /** The splits cover the range, and hold all its entries, by their number and by their fingerprint. */
  ghost predicate Conserves<F(!new)>(o: Monoid<F>, ns: NamespaceId, m: Store, range: Range3d, minSize: nat, splits: seq<RangeSplit<F>>) {
    var hits := RangeHits(m, range, DEFAULT_IGNORE);
    && Covers(o, ns, m, range, minSize, splits)
    && TotalSize(m, splits) == |hits| && hits <= m.Keys && TotalFingerprint(o, ns, m, splits) == Fold(o, ns, m, hits)
  }

  lemma NoOverrunConserves<F(!new)>(o: Monoid<F>, ns: NamespaceId, m: Store, range: Range3d, minSize: nat, total: nat, target: nat, stamps: seq<nat>)
    requires Lawful(o) && WalkTimes(range.times, stamps, total) && 0 < total && !Overruns(range.times, total, target, stamps)
    ensures Conserves(o, ns, m, range, minSize, SplitsOf(o, ns, m, range, minSize, CutAll(range.times, total, target, stamps).slices))
  {
    var slices := CutAll(range.times, total, target, stamps).slices;
    CoverCovers(range.times, total, target, stamps);
    CutsBehind(range.times, total, target, stamps);
    assert slices == CoverOf(range.times, total, target, stamps).slices;
    SplitsCover(o, ns, m, range, minSize, slices);
    SplitsConserve(o, ns, m, range, minSize, SplitsOf(o, ns, m, range, minSize, slices));
  }
}
