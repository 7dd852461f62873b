/** Entries, the newer-than relation, prefix pruning, and the meaning of the store operations
    on a map from (subspace, path) to records. */
module Entries {
  import opened Wrappers
  import opened ByteStrings
  import opened Paths
  import opened Grouping

  type NamespaceId(==, !new)
  type Token(==, !new)

  datatype Entry = Entry(
    namespaceId: NamespaceId, subspace: SubspaceId, path: Path,
    timestamp: nat, payloadLength: nat, digest: nat)

  datatype AuthorisedEntry = AuthorisedEntry(entry: Entry, token: Token)

  predicate ValidEntry(lim: Limits, width: nat, e: Entry) {
    && ValidSubspace(width, e.subspace) && ValidPath(lim, e.path)
    && e.timestamp < U64_LIMIT && e.payloadLength < U64_LIMIT
  }

  /** Later timestamp first, then greater digest, then greater length. */
  predicate NewerRank(t: nat, d: nat, l: nat, t': nat, d': nat, l': nat) {
    t' < t || (t' == t && d' < d) || (t' == t && d' == d && l' < l)
  }

  predicate IsNewerThan(a: Entry, b: Entry) {
    NewerRank(a.timestamp, a.digest, a.payloadLength, b.timestamp, b.digest, b.payloadLength)
  }

  function RankOf(e: Entry): seq<nat> {
    [e.timestamp, e.digest, e.payloadLength]
  }

  /** Lexicographic order of number sequences. */
  predicate LexLess(a: seq<nat>, b: seq<nat>) {
    if a == [] || b == [] then a == [] && b != []
    else a[0] < b[0] || (a[0] == b[0] && LexLess(a[1..], b[1..]))
  }

  /** Newer means greater by timestamp, then digest, then length. */
  lemma NewerIsLexicographic(a: Entry, b: Entry)
    ensures IsNewerThan(a, b) <==> LexLess(RankOf(b), RankOf(a))
    ensures RankOf(a) != RankOf(b) ==> IsNewerThan(a, b) != IsNewerThan(b, a)
  {
    LexStep(b.timestamp, [b.digest, b.payloadLength], a.timestamp, [a.digest, a.payloadLength]);
    LexStep(b.digest, [b.payloadLength], a.digest, [a.payloadLength]);
    LexStep(b.payloadLength, [], a.payloadLength, []);
    assert forall e :: RankOf(e) == [e.timestamp] + [e.digest, e.payloadLength];
    assert forall e: Entry :: [e.digest, e.payloadLength] == [e.digest] + [e.payloadLength];
    assert forall e: Entry :: [e.payloadLength] == [e.payloadLength] + [];
    if RankOf(a) != RankOf(b) && a.timestamp == b.timestamp && a.digest == b.digest { assert a.payloadLength != b.payloadLength; }
  }

  lemma LexStep(x: nat, xs: seq<nat>, y: nat, ys: seq<nat>)
    ensures LexLess([x] + xs, [y] + ys) <==> x < y || (x == y && LexLess(xs, ys))
  {
    assert ([x] + xs)[1..] == xs && ([y] + ys)[1..] == ys;
  }

  predicate IsPrunedBy(e: Entry, other: Entry) {
    && e.namespaceId == other.namespaceId
    && e.subspace == other.subspace
    && IsNewerThan(other, e)
    && other.path <= e.path
  }

  // ---------------------------------------------------------------- records

  datatype Key = Key(subspace: SubspaceId, path: Path)

  datatype Record = Record(timestamp: nat, payloadLength: nat, digest: nat, token: Token, available: nat)

  type Store = map<Key, Record>

  function KeyOf(e: Entry): Key {
    Key(e.subspace, e.path)
  }

  /** What a store remembers of a freshly ingested entry. */
  function FreshRecord(a: AuthorisedEntry): Record {
    Record(a.entry.timestamp, a.entry.payloadLength, a.entry.digest, a.token, 0)
  }

  function Restore(ns: NamespaceId, k: Key, r: Record): AuthorisedEntry {
    AuthorisedEntry(Entry(ns, k.subspace, k.path, r.timestamp, r.payloadLength, r.digest), r.token)
  }

  predicate RecordNewer(r: Record, e: Entry) {
    NewerRank(r.timestamp, r.digest, r.payloadLength, e.timestamp, e.digest, e.payloadLength)
  }

  /** The authorised entries a store holds. */
  function Contents(ns: NamespaceId, m: Store): set<AuthorisedEntry> {
    set k | k in m :: Restore(ns, k, m[k])
  }

  predicate ValidRecord(lim: Limits, width: nat, k: Key, r: Record) {
    && ValidSubspace(width, k.subspace) && ValidPath(lim, k.path)
    && r.timestamp < U64_LIMIT && r.payloadLength < U64_LIMIT && r.available <= r.payloadLength
  }

  predicate ValidStore(lim: Limits, width: nat, m: Store) {
    forall k | k in m :: ValidRecord(lim, width, k, m[k])
  }

  // ---------------------------------------------------------------- operations

  /** Records that make an incoming entry obsolete. */
  predicate Blocks(k: Key, r: Record, e: Entry) {
    k.subspace == e.subspace && k.path <= e.path && RecordNewer(r, e)
  }

  function Blockers(m: Store, e: Entry): set<Key> {
    set k | k in m && Blocks(k, m[k], e)
  }

  /** Records that an incoming entry removes: everything below it that is not newer. */
  predicate Replaces(e: Entry, k: Key, r: Record) {
    k.subspace == e.subspace && e.path <= k.path && !RecordNewer(r, e)
  }

  function Prunable(m: Store, e: Entry): set<Key> {
    set k | k in m && Replaces(e, k, m[k])
  }

  /** The first of some keys of one subspace in path order. */
  predicate IsFirst(ks: set<Key>, k: Key) {
    k in ks && forall j | j in ks :: PathLeq(k.path, j.path)
  }

  lemma {:induction false} FirstExists(ks: set<Key>)
    requires ks != {}
    ensures exists k :: IsFirst(ks, k)
  {
    var x :| x in ks;
    if ks != {x} {
      FirstExists(ks - {x});
      var k :| IsFirst(ks - {x}, k);
      PathLessTotal(x.path, k.path);
      if PathLess(x.path, k.path) {
        forall j | j in ks ensures PathLeq(x.path, j.path) {
          if j != x {
            assert j in ks - {x};
            if k.path != j.path { PathLessTransitive(x.path, k.path, j.path); }
          }
        }
        assert IsFirst(ks, x);
      } else {
        assert forall j | j in ks :: j == x || j in ks - {x};
        assert IsFirst(ks, k);
      }
    } else {
      assert IsFirst(ks, x);
    }
  }

  lemma FirstUnique(ks: set<Key>, s: SubspaceId, k: Key, j: Key)
    requires IsFirst(ks, k) && IsFirst(ks, j)
    requires forall i | i in ks :: i.subspace == s
    ensures k == j
  {
    if k.path != j.path { PathLessAsymmetric(k.path, j.path); }
  }

  datatype IngestResult =
    | Success
    | Obsolete(obsolete: AuthorisedEntry, newer: AuthorisedEntry)
    | PruningPrevented

  function Prune(m: Store, e: Entry): Store {
    m - Prunable(m, e)
  }

  ghost function Ingest(ns: NamespaceId, m: Store, a: AuthorisedEntry, preventPruning: bool): (Store, IngestResult) {
    var blockers := Blockers(m, a.entry);
    if blockers != {} then
      FirstExists(blockers);
      var k :| IsFirst(blockers, k);
      (m, Obsolete(a, Restore(ns, k, m[k])))
    else if preventPruning && Prunable(m, a.entry) != {} then
      (m, PruningPrevented)
    else
      (Prune(m, a.entry)[KeyOf(a.entry) := FreshRecord(a)], Success)
  }

  /** Ingestion reports the unique first blocker. */
  lemma IngestBlocked(ns: NamespaceId, m: Store, a: AuthorisedEntry, preventPruning: bool, k: Key)
    requires IsFirst(Blockers(m, a.entry), k)
    ensures Ingest(ns, m, a, preventPruning) == (m, Obsolete(a, Restore(ns, k, m[k])))
  {
    var blockers := Blockers(m, a.entry);
    FirstExists(blockers);
    var j :| IsFirst(blockers, j) && Ingest(ns, m, a, preventPruning) == (m, Obsolete(a, Restore(ns, j, m[j])));
    FirstUnique(blockers, a.entry.subspace, k, j);
  }

  /** An entry that nothing blocks replaces the one at its own place. */
  lemma PruneMakesRoom(m: Store, e: Entry)
    requires Blockers(m, e) == {}
    ensures KeyOf(e) !in Prune(m, e)
  {
    assert KeyOf(e) !in Blockers(m, e);
  }

  datatype ForgetError = WrongEntry

  function ForgetEntry(m: Store, k: Key, expected: Option<nat>): (Store, Result<(), ForgetError>) {
    if k !in m then (m, Ok(()))
    else if expected.Some? && m[k].digest != expected.value then (m, Err(ForgetError.WrongEntry))
    else (m - {k}, Ok(()))
  }

  predicate Forgettable(k: Key, r: Record, area: Area, protected: Option<Area>) {
    && AreaIncludes(area, k.subspace, k.path, r.timestamp)
    && !(protected.Some? && AreaIncludes(protected.value, k.subspace, k.path, r.timestamp))
  }

  function Forgotten(m: Store, area: Area, protected: Option<Area>): set<Key> {
    set k | k in m && Forgettable(k, m[k], area, protected)
  }

  function ForgetArea(m: Store, area: Area, protected: Option<Area>): (Store, nat) {
    var gone := Forgotten(m, area, protected);
    (m - gone, |gone|)
  }

  datatype PayloadAppendError = NoSuchEntry | WrongEntry | IncorrectAvailableLength | TooManyBytes | DigestMismatch

  type Hash = seq<byte> -> nat

  /** Appending to a payload of which nothing is there yet. */
  function AppendPayload(hash: Hash, m: Store, k: Key, expectedDigest: nat, bytes: seq<byte>): Result<Store, PayloadAppendError> {
    if k !in m then Err(NoSuchEntry)
    else if m[k].digest != expectedDigest then Err(PayloadAppendError.WrongEntry)
    else if m[k].available != 0 then Err(IncorrectAvailableLength)
    else if |bytes| > m[k].payloadLength then Err(TooManyBytes)
    else if |bytes| == m[k].payloadLength && hash(bytes) != m[k].digest then Err(DigestMismatch)
    else Ok(m[k := m[k].(available := |bytes|)])
  }

  /** More bytes of a payload, if there is an entry and they fit. */
  function Grown(m: Store, k: Key, bytes: nat): Store {
    if k in m && m[k].available + bytes <= m[k].payloadLength then m[k := m[k].(available := m[k].available + bytes)] else m
  }

  /** Appending to a payload whatever is there of it already. Whether the whole payload has the digest that the
      entry names is given. The result says whether the payload is complete. */
  function AppendTo(m: Store, k: Key, expected: Option<nat>, bytes: nat, digestMatches: bool): (Store, Result<bool, PayloadAppendError>) {
    if k !in m then (m, Err(NoSuchEntry))
    else if expected.Some? && m[k].digest != expected.value then (m, Err(PayloadAppendError.WrongEntry))
    else
      var now := m[k].available + bytes;
      if now > m[k].payloadLength then (m, Err(TooManyBytes))
      else if now == m[k].payloadLength && !digestMatches then (m[k := m[k].(available := 0)], Err(DigestMismatch))
      else (m[k := m[k].(available := now)], Ok(now == m[k].payloadLength))
  }

  /** The same records, some of them without what was there of their payloads. */
  function WithoutPayloads(m: Store, ks: set<Key>): Store {
    map k | k in m :: if k in ks then m[k].(available := 0) else m[k]
  }

  lemma NoneWithout(m: Store)
    ensures WithoutPayloads(m, {}) == m
  {}

  lemma OneWithout(m: Store, k: Key)
    requires k in m
    ensures WithoutPayloads(m, {k}) == m[k := m[k].(available := 0)]
  {}

  datatype ForgetPayloadError = NoSuchPayloadEntry | WrongPayloadEntry

  function ForgetPayload(m: Store, k: Key, expected: Option<nat>): Result<Store, ForgetPayloadError> {
    if k !in m then Err(NoSuchPayloadEntry)
    else if expected.Some? && m[k].digest != expected.value then Err(WrongPayloadEntry)
    else Ok(WithoutPayloads(m, {k}))
  }
}
