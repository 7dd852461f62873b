/** The two trees of the persistent store over encoded keys, and the prefix scans that replace the
    walks over one subspace. A tree is a map from byte strings that is walked in byte order. */
module SledTrees {
  import opened Wrappers
  import opened ByteStrings
  import opened Paths
  import opened Grouping
  import opened Entries
  import opened KeyCodec
  import opened TreeIndex

  datatype Value = Value(payloadLength: nat, digest: nat, token: Token, localLength: nat)

  type Tree = map<seq<byte>, Value>

  function ValueOf(r: Record): Value {
    Value(r.payloadLength, r.digest, r.token, r.available)
  }

  function SptKeyOf(k: Key, r: Record): seq<byte> {
    SptKey(k.subspace, k.path, r.timestamp)
  }

  function TspKeyOf(k: Key, r: Record): seq<byte> {
    TspKey(k.subspace, k.path, r.timestamp)
  }

  /** Where the two trees keep each record. */
  function SptAt(m: Store): map<Key, seq<byte>> {
    map k | k in m :: SptKeyOf(k, m[k])
  }

  function TspAt(m: Store): map<Key, seq<byte>> {
    map k | k in m :: TspKeyOf(k, m[k])
  }

  function Values(m: Store): map<Key, Value> {
    map k | k in m :: ValueOf(m[k])
  }

  /** The first tree holds exactly the records of the store, each under its one key. */
  ghost predicate InSpt(lim: Limits, width: nat, spt: Tree, of: map<seq<byte>, Key>, m: Store) {
    ValidStore(lim, width, m) && Indexes(spt, of, SptAt(m), Values(m))
  }

  /** So does the second. */
  ghost predicate InTsp(lim: Limits, width: nat, tsp: Tree, of: map<seq<byte>, Key>, m: Store) {
    ValidStore(lim, width, m) && Indexes(tsp, of, TspAt(m), Values(m))
  }

  // ---------------------------------------------------------------- updates of both trees

  lemma SptAtMinus(m: Store, gone: set<Key>)
    ensures SptAt(m - gone) == SptAt(m) - gone
  {}

  lemma TspAtMinus(m: Store, gone: set<Key>)
    ensures TspAt(m - gone) == TspAt(m) - gone
  {}

  lemma ValuesMinus(m: Store, gone: set<Key>)
    ensures Values(m - gone) == Values(m) - gone
  {}

  lemma SptRemove(lim: Limits, width: nat, spt: Tree, of: map<seq<byte>, Key>, m: Store, gone: set<Key>)
    requires InSpt(lim, width, spt, of, m)
    ensures InSpt(lim, width, spt - KeysOf(of, gone), of - KeysOf(of, gone), m - gone)
  {
    Remove(spt, of, SptAt(m), Values(m), gone);
    SptAtMinus(m, gone);
    ValuesMinus(m, gone);
  }

  lemma TspRemove(lim: Limits, width: nat, tsp: Tree, of: map<seq<byte>, Key>, m: Store, gone: set<Key>)
    requires InTsp(lim, width, tsp, of, m)
    ensures InTsp(lim, width, tsp - KeysOf(of, gone), of - KeysOf(of, gone), m - gone)
  {
    Remove(tsp, of, TspAt(m), Values(m), gone);
    TspAtMinus(m, gone);
    ValuesMinus(m, gone);
  }

  lemma SptAtPlus(m: Store, k: Key, r: Record)
    ensures SptAt(m[k := r]) == SptAt(m)[k := SptKeyOf(k, r)]
  {}

  lemma TspAtPlus(m: Store, k: Key, r: Record)
    ensures TspAt(m[k := r]) == TspAt(m)[k := TspKeyOf(k, r)]
  {}

  lemma ValuesPlus(m: Store, k: Key, r: Record)
    ensures Values(m[k := r]) == Values(m)[k := ValueOf(r)]
  {}

  lemma ValidPlus(lim: Limits, width: nat, m: Store, k: Key, r: Record)
    requires ValidStore(lim, width, m) && ValidRecord(lim, width, k, r)
    ensures ValidStore(lim, width, m[k := r])
  {}

  /** A record under a new place has a new key. */
  lemma SptInsert(lim: Limits, width: nat, spt: Tree, of: map<seq<byte>, Key>, m: Store, k: Key, r: Record)
    requires InSpt(lim, width, spt, of, m) && k !in m && ValidRecord(lim, width, k, r)
    ensures InSpt(lim, width, spt[SptKeyOf(k, r) := ValueOf(r)], of[SptKeyOf(k, r) := k], m[k := r])
  {
    var b := SptKeyOf(k, r);
    ValidPlus(lim, width, m, k, r);
    if b in of {
      var j := of[b];
      assert j in SptAt(m) && SptAt(m)[j] == b;
      SptKeyInjective(j.subspace, j.path, m[j].timestamp, k.subspace, k.path, r.timestamp);
      assert false;
    }
    Insert(spt, of, SptAt(m), Values(m), k, b, ValueOf(r));
    SptAtPlus(m, k, r);
    ValuesPlus(m, k, r);
  }

  lemma TspInsert(lim: Limits, width: nat, tsp: Tree, of: map<seq<byte>, Key>, m: Store, k: Key, r: Record)
    requires InTsp(lim, width, tsp, of, m) && k !in m && ValidRecord(lim, width, k, r)
    ensures InTsp(lim, width, tsp[TspKeyOf(k, r) := ValueOf(r)], of[TspKeyOf(k, r) := k], m[k := r])
  {
    var b := TspKeyOf(k, r);
    ValidPlus(lim, width, m, k, r);
    if b in of {
      var j := of[b];
      assert j in TspAt(m) && TspAt(m)[j] == b;
      TspKeyInjective(j.subspace, j.path, m[j].timestamp, k.subspace, k.path, r.timestamp);
      assert false;
    }
    Insert(tsp, of, TspAt(m), Values(m), k, b, ValueOf(r));
    TspAtPlus(m, k, r);
    ValuesPlus(m, k, r);
  }

  /** Rewriting a record without touching its timestamp rewrites one value of each tree. */
  lemma SptUpdate(lim: Limits, width: nat, spt: Tree, of: map<seq<byte>, Key>, m: Store, k: Key, r: Record)
    requires InSpt(lim, width, spt, of, m) && k in m && ValidRecord(lim, width, k, r)
    requires r.timestamp == m[k].timestamp
    ensures InSpt(lim, width, spt[SptKeyOf(k, r) := ValueOf(r)], of[SptKeyOf(k, r) := k], m[k := r])
  {
    var b := SptKeyOf(k, r);
    ValidPlus(lim, width, m, k, r);
    SptAtPlus(m, k, r);
    ValuesPlus(m, k, r);
    Rewrite(spt, of, SptAt(m), Values(m), k, b, ValueOf(r));
  }

  lemma TspUpdate(lim: Limits, width: nat, tsp: Tree, of: map<seq<byte>, Key>, m: Store, k: Key, r: Record)
    requires InTsp(lim, width, tsp, of, m) && k in m && ValidRecord(lim, width, k, r)
    requires r.timestamp == m[k].timestamp
    ensures InTsp(lim, width, tsp[TspKeyOf(k, r) := ValueOf(r)], of[TspKeyOf(k, r) := k], m[k := r])
  {
    var b := TspKeyOf(k, r);
    ValidPlus(lim, width, m, k, r);
    TspAtPlus(m, k, r);
    ValuesPlus(m, k, r);
    Rewrite(tsp, of, TspAt(m), Values(m), k, b, ValueOf(r));
  }

  // ---------------------------------------------------------------- walks

  /** The keys a prefix scan visits. */
  function ScanPrefix(tree: Tree, prefix: seq<byte>): set<seq<byte>> {
    set b | b in tree && prefix <= b
  }

  /** The next key of a walk in byte order. */
  method TakeLeast(remaining: set<seq<byte>>) returns (b: seq<byte>)
    requires remaining != {}
    ensures b in remaining && forall c | c in remaining :: BytesLeq(b, c)
  {
    ghost var least := LeastKeyExists(remaining);
    b :| b in remaining && forall c | c in remaining :: BytesLeq(b, c);
  }

  /** The record a key of the first tree stands for. */
  method DecodeRecord(width: nat, spt: Tree, b: seq<byte>, ghost lim: Limits, ghost of: map<seq<byte>, Key>, ghost m: Store)
      returns (k: Key, r: Record)
    requires InSpt(lim, width, spt, of, m) && b in spt
    ensures k == of[b] && k in m && r == m[k] && b == SptKeyOf(k, r)
  {
    ghost var j := of[b];
    assert j in SptAt(m) && SptAt(m)[j] == b;
    var s, p, t := DecodeSptEntryKey(width, b, j.subspace, j.path, m[j].timestamp);
    var value := spt[b];
    k := Key(s, p);
    r := Record(t, value.payloadLength, value.digest, value.token, value.localLength);
  }

  /** The linear walk over one subspace for a newer entry at a prefix. */
  method FindNewer(width: nat, spt: Tree, e: Entry, ghost lim: Limits, ghost of: map<seq<byte>, Key>, ghost m: Store)
      returns (r: Option<(Key, Record)>)
    requires InSpt(lim, width, spt, of, m) && ValidEntry(lim, width, e)
    ensures r.None? ==> Blockers(m, e) == {}
    ensures r.Some? ==> IsFirst(Blockers(m, e), r.value.0) && r.value.1 == m[r.value.0]
  {
    var remaining := ScanPrefix(spt, e.subspace);
    ghost var target := KeysOf(of, Blockers(m, e));
    BlockersScanned(lim, width, spt, of, m, e);
    while remaining != {}
      invariant target <= remaining <= ScanPrefix(spt, e.subspace)
      decreases remaining
    {
      var b := TakeLeast(remaining);
      var k, record := DecodeRecord(width, spt, b, lim, of, m);
      ScanSubspaceIff(e.subspace, k.subspace, k.path, record.timestamp);
      if k.path <= e.path && RecordNewer(record, e) {
        FirstInByteOrder(lim, width, spt, of, m, Blockers(m, e), e.subspace, k);
        return Some((k, record));
      }
      remaining := remaining - {b};
    }
    NoKeys(spt, of, SptAt(m), Values(m), Blockers(m, e));
    return None;
  }

  /** The scan below a path for entries that are not newer; it stops early if pruning is to be prevented. */
  method CollectPrunable(width: nat, spt: Tree, e: Entry, preventPruning: bool,
                         ghost lim: Limits, ghost of: map<seq<byte>, Key>, ghost m: Store)
      returns (prevented: bool, keysToPrune: set<seq<byte>>)
    requires InSpt(lim, width, spt, of, m) && ValidEntry(lim, width, e)
    ensures prevented <==> preventPruning && Prunable(m, e) != {}
    ensures !prevented ==> keysToPrune == KeysOf(of, Prunable(m, e))
  {
    var prefix := EncodeSubspacePathKey(e.subspace, e.path, false);
    var remaining := ScanPrefix(spt, prefix);
    ghost var target := KeysOf(of, Prunable(m, e));
    prevented, keysToPrune := false, {};
    PrunableScanned(lim, width, spt, of, m, e);
    while remaining != {}
      invariant remaining <= ScanPrefix(spt, prefix)
      invariant keysToPrune <= target <= keysToPrune + remaining
      invariant preventPruning ==> keysToPrune == {}
      decreases remaining
    {
      var b := TakeLeast(remaining);
      var k, record := DecodeRecord(width, spt, b, lim, of, m);
      ScanPrefixIff(e.subspace, e.path, false, k.subspace, k.path, record.timestamp);
      remaining := remaining - {b};
      if !RecordNewer(record, e) {
        if preventPruning {
          assert k in Prunable(m, e);
          return true, {};
        }
        keysToPrune := keysToPrune + {b};
      }
    }
    if preventPruning { NoKeys(spt, of, SptAt(m), Values(m), Prunable(m, e)); }
  }

  /** Translate a set of keys of the first tree into keys of the second. */
  method TranslateKeys(width: nat, spt: Tree, keys: set<seq<byte>>, ghost lim: Limits,
                       ghost of: map<seq<byte>, Key>, ghost tsp: Tree, ghost tspOf: map<seq<byte>, Key>, ghost m: Store, ghost ks: set<Key>)
      returns (tspKeys: set<seq<byte>>)
    requires InSpt(lim, width, spt, of, m) && InTsp(lim, width, tsp, tspOf, m)
    requires ks <= m.Keys && keys == KeysOf(of, ks)
    ensures tspKeys == KeysOf(tspOf, ks)
  {
    tspKeys := {};
    var remaining := keys;
    ghost var left := ks;
    while remaining != {}
      invariant left <= ks && remaining == KeysOf(of, left)
      invariant tspKeys == KeysOf(tspOf, ks - left)
      decreases remaining
    {
      var b :| b in remaining;
      var k, record := DecodeRecord(width, spt, b, lim, of, m);
      var tspKey := EncodeTspEntryKey(k.subspace, k.path, record.timestamp);
      assert tspKey == TspAt(m)[k];
      KeysMinusOne(spt, of, SptAt(m), Values(m), left, k);
      KeysPlusOne(tsp, tspOf, TspAt(m), Values(m), ks - left, k);
      assert ks - (left - {k}) == (ks - left) + {k};
      left := left - {k};
      remaining := remaining - {b};
      tspKeys := tspKeys + {tspKey};
    }
    NoKeys(spt, of, SptAt(m), Values(m), left);
    assert ks - left == ks;
  }

  /** The first key with an exact, terminated path key as its prefix. */
  method FindExact(width: nat, spt: Tree, s: SubspaceId, p: Path, ghost lim: Limits, ghost of: map<seq<byte>, Key>, ghost m: Store)
      returns (r: Option<(seq<byte>, Record)>)
    requires InSpt(lim, width, spt, of, m) && ValidSubspace(width, s)
    ensures r.None? <==> Key(s, p) !in m
    ensures r.Some? ==> r.value.0 == SptKeyOf(Key(s, p), m[Key(s, p)]) && r.value.1 == m[Key(s, p)]
  {
    var exact := EncodeSubspacePathKey(s, p, true);
    var scan := ScanPrefix(spt, exact);
    if scan == {} {
      if Key(s, p) in m {
        ExactScanned(lim, width, spt, of, m, s, p);
        assert false;
      }
      return None;
    }
    var b := TakeLeast(scan);
    var k, record := DecodeRecord(width, spt, b, lim, of, m);
    ScanPrefixIff(s, p, true, k.subspace, k.path, record.timestamp);
    return Some((b, record));
  }

  /** The keys of the entries that forgetting an area removes, and how many there are. */
  method CollectForgettable(width: nat, spt: Tree, area: Area, protected: Option<Area>,
                            ghost lim: Limits, ghost of: map<seq<byte>, Key>, ghost m: Store)
      returns (keys: set<seq<byte>>, count: nat)
    requires InSpt(lim, width, spt, of, m) && ValidArea(lim, width, area)
    ensures keys == KeysOf(of, Forgotten(m, area, protected))
    ensures count == |Forgotten(m, area, protected)|
  {
    var remaining := AreaKeys(spt, area);
    ghost var scanned := remaining;
    ghost var target := KeysOf(of, Forgotten(m, area, protected));
    AreaScanned(lim, width, spt, of, m, area, protected, scanned);
    keys, count := {}, 0;
    while remaining != {}
      invariant remaining <= scanned && keys == target - remaining && count == |keys|
      decreases remaining
    {
      var b :| b in remaining;
      var forget := IsForgettable(width, spt, b, area, protected, lim, of, m);
      TakeStep(target, keys, remaining, b);
      remaining := remaining - {b};
      if forget { keys, count := keys + {b}, count + 1; }
    }
    TakenAll(target, keys, remaining);
    KeysCount(spt, of, SptAt(m), Values(m), Forgotten(m, area, protected));
  }

  /** The test on one visited key; below a concrete subspace the scan has done the prefix test already. */
  method IsForgettable(width: nat, spt: Tree, b: seq<byte>, area: Area, protected: Option<Area>,
                       ghost lim: Limits, ghost of: map<seq<byte>, Key>, ghost m: Store)
      returns (forget: bool)
    requires InSpt(lim, width, spt, of, m) && ValidArea(lim, width, area) && b in AreaKeys(spt, area)
    ensures forget <==> b in KeysOf(of, Forgotten(m, area, protected))
  {
    var k, record := DecodeRecord(width, spt, b, lim, of, m);
    var prefixMatches := true;
    if area.subspace.Any? { prefixMatches := area.path <= k.path; }
    var timestampIncluded := TimesInclude(area.times, record.timestamp);
    var isProtected := protected.Some? &&
      AreaIncludes(protected.value, k.subspace, k.path, record.timestamp);
    forget := !isProtected && prefixMatches && timestampIncluded;
    if area.subspace.Id? {
      ScanPrefixIff(area.subspace.id, area.path, false, k.subspace, k.path, record.timestamp);
    }
  }

  /** How many entries an area includes. */
  method CountIncluded(width: nat, spt: Tree, area: Area, ghost lim: Limits, ghost of: map<seq<byte>, Key>, ghost m: Store)
      returns (counted: nat)
    requires InSpt(lim, width, spt, of, m) && ValidArea(lim, width, area)
    ensures counted == |Forgotten(m, area, None)|
  {
    var remaining := AreaKeys(spt, area);
    ghost var scanned := remaining;
    ghost var target := KeysOf(of, Forgotten(m, area, None));
    AreaScanned(lim, width, spt, of, m, area, None, scanned);
    counted := 0;
    while remaining != {}
      invariant remaining <= scanned && counted == |target - remaining|
      decreases remaining
    {
      var b :| b in remaining;
      var k, record := DecodeRecord(width, spt, b, lim, of, m);
      TakeStep(target, target - remaining, remaining, b);
      remaining := remaining - {b};
      if AreaIncludes(area, k.subspace, k.path, record.timestamp) {
        counted := counted + 1;
      }
    }
    TakenAll(target, target - remaining, remaining);
    KeysCount(spt, of, SptAt(m), Values(m), Forgotten(m, area, None));
  }

  // ---------------------------------------------------------------- what the scans see

  lemma TakeStep<T>(target: set<T>, taken: set<T>, remaining: set<T>, x: T)
    requires x in remaining && taken == target - remaining
    ensures x in target ==> taken + {x} == target - (remaining - {x}) && |taken + {x}| == |taken| + 1
    ensures x !in target ==> taken == target - (remaining - {x})
  {}

  lemma TakenAll<T>(target: set<T>, taken: set<T>, remaining: set<T>)
    requires remaining == {} && taken == target - remaining
    ensures taken == target
  {}

  lemma BlockersScanned(lim: Limits, width: nat, spt: Tree, of: map<seq<byte>, Key>, m: Store, e: Entry)
    requires InSpt(lim, width, spt, of, m) && ValidEntry(lim, width, e)
    ensures KeysOf(of, Blockers(m, e)) <= ScanPrefix(spt, e.subspace)
  {
    forall b | b in KeysOf(of, Blockers(m, e)) ensures b in ScanPrefix(spt, e.subspace) {
      var k := of[b];
      assert SptAt(m)[k] == b;
      ScanSubspaceIff(e.subspace, k.subspace, k.path, m[k].timestamp);
    }
  }

  /** Within one subspace, the first key in byte order is the first in path order. */
  lemma FirstInByteOrder(lim: Limits, width: nat, spt: Tree, of: map<seq<byte>, Key>, m: Store, ks: set<Key>, s: SubspaceId, k: Key)
    requires InSpt(lim, width, spt, of, m) && ks <= m.Keys && k in ks
    requires forall j | j in ks :: j.subspace == s
    requires forall b | b in KeysOf(of, ks) :: BytesLeq(SptKeyOf(k, m[k]), b)
    ensures IsFirst(ks, k)
  {
    forall j | j in ks ensures PathLeq(k.path, j.path) {
      assert SptAt(m)[j] in KeysOf(of, ks);
      SptKeyOrder(s, k.path, m[k].timestamp, s, j.path, m[j].timestamp);
      LessIrreflexive(s);
      if SptKeyOf(k, m[k]) == SptKeyOf(j, m[j]) {
        SptKeyInjective(s, k.path, m[k].timestamp, s, j.path, m[j].timestamp);
      }
    }
  }

  /** Everything an entry prunes lies under its unterminated path key. */
  lemma PrunableScanned(lim: Limits, width: nat, spt: Tree, of: map<seq<byte>, Key>, m: Store, e: Entry)
    requires InSpt(lim, width, spt, of, m) && ValidEntry(lim, width, e)
    ensures KeysOf(of, Prunable(m, e)) <= ScanPrefix(spt, SubspacePathKey(e.subspace, e.path, false))
  {
    var prefix := SubspacePathKey(e.subspace, e.path, false);
    forall b | b in KeysOf(of, Prunable(m, e)) ensures b in ScanPrefix(spt, prefix) {
      var k := of[b];
      assert SptAt(m)[k] == b;
      ScanPrefixIff(e.subspace, e.path, false, k.subspace, k.path, m[k].timestamp);
    }
  }

  lemma ExactScanned(lim: Limits, width: nat, spt: Tree, of: map<seq<byte>, Key>, m: Store, s: SubspaceId, p: Path)
    requires InSpt(lim, width, spt, of, m) && ValidSubspace(width, s) && Key(s, p) in m
    ensures SptAt(m)[Key(s, p)] in ScanPrefix(spt, SubspacePathKey(s, p, true))
  {
    ScanPrefixIff(s, p, true, s, p, m[Key(s, p)].timestamp);
  }

  /** What the walk over an area visits: everything, or what lies under the path key of the area. */
  function AreaKeys(spt: Tree, area: Area): set<seq<byte>> {
    match area.subspace
    case Any => spt.Keys
    case Id(s) => ScanPrefix(spt, SubspacePathKey(s, area.path, false))
  }

  lemma AreaScanned(lim: Limits, width: nat, spt: Tree, of: map<seq<byte>, Key>, m: Store, area: Area, protected: Option<Area>,
                    scanned: set<seq<byte>>)
    requires InSpt(lim, width, spt, of, m) && ValidArea(lim, width, area) && scanned == AreaKeys(spt, area)
    ensures KeysOf(of, Forgotten(m, area, protected)) <= scanned
  {
    forall b | b in KeysOf(of, Forgotten(m, area, protected)) ensures b in scanned {
      var k := of[b];
      assert SptAt(m)[k] == b;
      if area.subspace.Id? {
        ScanPrefixIff(area.subspace.id, area.path, false, k.subspace, k.path, m[k].timestamp);
      }
    }
  }
}
