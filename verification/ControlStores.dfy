/** The reference store: a map of maps, with every operation a walk over one subspace. */
module ControlStores {
  import opened Wrappers
  import opened ByteStrings
  import opened Paths
  import opened Grouping
  import opened Entries
  import opened Convergence
  import opened StoreEvents
  import opened Queries

  type Subspaces = map<SubspaceId, map<Path, Record>>

  /** The nested map read as one map over (subspace, path). */
  function Flatten(ss: Subspaces): Store {
    map s, p | s in ss && p in ss[s] :: Key(s, p) := ss[s][p]
  }

  /** The keys of one subspace among some paths. */
  function KeysAt(s: SubspaceId, paths: set<Path>): set<Key> {
    set p | p in paths :: Key(s, p)
  }

  /** The part of a store that lies in one subspace. */
  ghost predicate HoldsAt(m: Store, s: SubspaceId, inner: map<Path, Record>) {
    && (forall p :: Key(s, p) in m <==> p in inner)
    && (forall p | p in inner :: m[Key(s, p)] == inner[p])
  }

  lemma FlattenAt(ss: Subspaces, k: Key)
    ensures k in Flatten(ss) <==> k.subspace in ss && k.path in ss[k.subspace]
    ensures k in Flatten(ss) ==> Flatten(ss)[k] == ss[k.subspace][k.path]
  {
    assert k == Key(k.subspace, k.path);
  }

  lemma FlattenHolds(ss: Subspaces, s: SubspaceId)
    requires s in ss
    ensures HoldsAt(Flatten(ss), s, ss[s])
  {
    forall p ensures Key(s, p) in Flatten(ss) <==> p in ss[s] { FlattenAt(ss, Key(s, p)); }
  }

  lemma FlattenCreate(ss: Subspaces, s: SubspaceId)
    requires s !in ss
    ensures Flatten(ss[s := map[]]) == Flatten(ss)
  {
    var m, m' := Flatten(ss), Flatten(ss[s := map[]]);
    forall k: Key
      ensures k in m' <==> k in m
      ensures k in m ==> m'[k] == m[k]
    {
      FlattenAt(ss, k);
      FlattenAt(ss[s := map[]], k);
    }
    assert m'.Keys == m.Keys;
  }

  lemma FlattenRemove(ss: Subspaces, s: SubspaceId, gone: set<Path>)
    requires s in ss
    ensures Flatten(ss[s := ss[s] - gone]) == Flatten(ss) - KeysAt(s, gone)
  {
    var m, m' := Flatten(ss) - KeysAt(s, gone), Flatten(ss[s := ss[s] - gone]);
    forall k: Key
      ensures k in m' <==> k in m
      ensures k in m ==> m'[k] == m[k]
    {
      FlattenAt(ss, k);
      FlattenAt(ss[s := ss[s] - gone], k);
      assert k == Key(k.subspace, k.path);
    }
  }

  lemma FlattenInsert(ss: Subspaces, s: SubspaceId, inner: map<Path, Record>, p: Path, r: Record)
    ensures Flatten(ss[s := inner[p := r]]) == Flatten(ss[s := inner])[Key(s, p) := r]
  {
    var m, m' := Flatten(ss[s := inner])[Key(s, p) := r], Flatten(ss[s := inner[p := r]]);
    forall k: Key
      ensures k in m' <==> k in m
      ensures k in m ==> m'[k] == m[k]
    {
      FlattenAt(ss[s := inner], k);
      FlattenAt(ss[s := inner[p := r]], k);
    }
  }

  /** The next path of a walk in path order. */
  method TakeFirst(remaining: set<Path>) returns (p: Path)
    requires remaining != {}
    ensures p in remaining && forall q | q in remaining :: PathLeq(p, q)
  {
    ghost var ks := KeysAt([], remaining);
    var some :| some in remaining;
    assert Key([], some) in ks;
    FirstExists(ks);
    ghost var k :| IsFirst(ks, k);
    forall q | q in remaining ensures PathLeq(k.path, q) { assert Key([], q) in ks; }
    p :| p in remaining && forall q | q in remaining :: PathLeq(p, q);
  }

  // ---------------------------------------------------------------- payloads

  /** The same up to how much of one payload is there. */
  ghost predicate SameButPayload(m: Store, m': Store, k: Key) {
    m.Keys == m'.Keys && forall j | j in m :: if j == k then m'[j] == m[j].(available := m'[j].available) else m'[j] == m[j]
  }

  /** Chunks taken from the front, while the payload has room for the next one whole. */
  method TakeChunks(chunks: seq<seq<byte>>, maxLength: nat) returns (payload: seq<byte>, tooMany: bool)
    requires forall i | 0 <= i < |chunks| :: chunks[i] != []
    ensures tooMany <==> |Concat(chunks)| > maxLength
    ensures |payload| <= maxLength && (!tooMany ==> payload == Concat(chunks))
  {
    payload := [];
    var i := 0;
    while i < |chunks| && |payload| + |chunks[i]| <= maxLength
      invariant i <= |chunks| && payload == Concat(chunks[..i]) && |payload| <= maxLength
    {
      ConcatSnoc(chunks[..i], chunks[i]);
      assert chunks[..i + 1] == chunks[..i] + [chunks[i]];
      payload := payload + chunks[i];
      i := i + 1;
    }
    ConcatSplit(chunks, i);
    if i == |chunks| { assert chunks[..i] == chunks; }
    return payload, i < |chunks|;
  }

  lemma {:induction false} ConcatSplit(chunks: seq<seq<byte>>, i: nat)
    requires i <= |chunks|
    ensures Concat(chunks) == Concat(chunks[..i]) + Concat(chunks[i..])
  {
    if i > 0 {
      ConcatSplit(chunks[1..], i - 1);
      assert chunks[1..][..i - 1] == chunks[..i][1..] && chunks[1..][i - 1..] == chunks[i..];
    } else {
      assert chunks[i..] == chunks;
    }
  }

  class ControlStore {
    const namespace: NamespaceId
    var subspaces: Subspaces
    /** The operations handed to the event system, oldest first. */
    var queued: seq<QueuedOp>

    constructor (namespace: NamespaceId)
      ensures this.namespace == namespace && View() == map[] && queued == []
    {
      this.namespace := namespace;
      subspaces := map[];
      queued := [];
    }

    ghost function View(): Store
      reads this`subspaces
    {
      Flatten(subspaces)
    }

    method GetOrCreateSubspaceStore(s: SubspaceId) returns (entries: map<Path, Record>)
      modifies this`subspaces
      ensures s in subspaces && subspaces[s] == entries && View() == old(View())
    {
      if s !in subspaces {
        FlattenCreate(subspaces, s);
        subspaces := subspaces[s := map[]];
      }
      entries := subspaces[s];
    }

    /** The walk that looks for a newer entry at a prefix; it reports the first one in path order. */
    method FindBlocker(e: Entry, entries: map<Path, Record>) returns (r: Option<Path>)
      requires HoldsAt(View(), e.subspace, entries)
      ensures r.None? ==> Blockers(View(), e) == {}
      ensures r.Some? ==> r.value in entries && IsFirst(Blockers(View(), e), Key(e.subspace, r.value))
    {
      var remaining := entries.Keys;
      while remaining != {}
        invariant remaining <= entries.Keys
        invariant forall p | p in entries && p !in remaining :: !Blocks(Key(e.subspace, p), entries[p], e)
        decreases remaining
      {
        var path := TakeFirst(remaining);
        if path <= e.path && RecordNewer(entries[path], e) {
          forall k | k in Blockers(View(), e) ensures PathLeq(path, k.path) {
            assert k == Key(e.subspace, k.path);
          }
          return Some(path);
        }
        remaining := remaining - {path};
      }
      forall k | k in View() ensures !Blocks(k, View()[k], e) {
        assert k == Key(k.subspace, k.path);
      }
      return None;
    }

    /** Remove what the entry prunes, unless that is to be prevented, and insert it if asked to. */
    method PruneMaybe(a: AuthorisedEntry, preventPruning: bool, insertIfNecessary: bool) returns (done: bool)
      modifies this`subspaces
      ensures done <==> !(preventPruning && Prunable(old(View()), a.entry) != {})
      ensures !done ==> View() == old(View())
      ensures done && insertIfNecessary ==>
        View() == Entries.Prune(old(View()), a.entry)[KeyOf(a.entry) := FreshRecord(a)]
      ensures done && !insertIfNecessary ==> View() == Entries.Prune(old(View()), a.entry)
    {
      var s := a.entry.subspace;
      var entries := GetOrCreateSubspaceStore(s);
      var pruneThese: set<Path> := {};
      var remaining := entries.Keys;
      ghost var ss := subspaces;
      while remaining != {}
        invariant subspaces == ss
        invariant remaining <= entries.Keys
        invariant pruneThese ==
          set p | p in entries && p !in remaining && Replaces(a.entry, Key(s, p), entries[p])
        decreases remaining
      {
        var path := TakeFirst(remaining);
        if a.entry.path <= path && !RecordNewer(entries[path], a.entry) {
          pruneThese := pruneThese + {path};
        }
        remaining := remaining - {path};
      }
      FlattenHolds(subspaces, s);
      PrunableAt(View(), a.entry, entries, pruneThese);
      if preventPruning && pruneThese != {} {
        return false;
      }
      FlattenRemove(subspaces, s, pruneThese);
      PruneIsMinus(View(), a.entry, KeysAt(s, pruneThese));
      var kept := entries - pruneThese;
      if insertIfNecessary {
        FlattenInsert(subspaces, s, kept, a.entry.path, FreshRecord(a));
        kept := kept[a.entry.path := FreshRecord(a)];
      }
      subspaces := subspaces[s := kept];
      return true;
    }

    method Prune(a: AuthorisedEntry)
      modifies this`subspaces
      ensures View() == Entries.Prune(old(View()), a.entry)
    {
      var _ := PruneMaybe(a, false, false);
    }

    method IngestEntry(a: AuthorisedEntry, preventPruning: bool, origin: EntryOrigin) returns (r: IngestResult)
      requires a.entry.namespaceId == namespace
      modifies this
      ensures (View(), r) == Ingest(namespace, old(View()), a, preventPruning)
      ensures IngestMeaning(namespace, old(View()), a, preventPruning, View(), r)
      ensures queued == old(queued) + if r.Success? then [Insertion(a, origin)] else []
    {
      IngestContents(namespace, View(), a, preventPruning);
      r := TryIngest(a, preventPruning, origin);
    }

    method TryIngest(a: AuthorisedEntry, preventPruning: bool, origin: EntryOrigin) returns (r: IngestResult)
      requires a.entry.namespaceId == namespace
      modifies this
      ensures (View(), r) == Ingest(namespace, old(View()), a, preventPruning)
      ensures queued == old(queued) + if r.Success? then [Insertion(a, origin)] else []
    {
      var s := a.entry.subspace;
      var entries := GetOrCreateSubspaceStore(s);
      FlattenHolds(subspaces, s);
      var blocker := FindBlocker(a.entry, entries);
      if blocker.Some? {
        r := Obsolete(a, Restore(namespace, Key(s, blocker.value), entries[blocker.value]));
        IngestBlocked(namespace, View(), a, preventPruning, Key(s, blocker.value));
        return;
      }
      var done := PruneMaybe(a, preventPruning, true);
      if done {
        queued := queued + [Insertion(a, origin)];
        r := Success;
      } else {
        r := PruningPrevented;
      }
    }

    /** Append to a payload of which nothing must be there yet, from a source that exposes it in chunks.
        On too many bytes, those of the first chunks stay. */
    method AppendPayload(s: SubspaceId, p: Path, expectedDigest: nat, chunks: seq<seq<byte>>, hash: Hash)
        returns (r: Result<(), PayloadAppendError>)
      requires forall i | 0 <= i < |chunks| :: chunks[i] != []
      modifies this`subspaces
      ensures var done := Entries.AppendPayload(hash, old(View()), Key(s, p), expectedDigest, Concat(chunks));
        && (r.Ok? <==> done.Ok?)
        && (r.Ok? ==> View() == done.value)
        && (r.Err? ==> r.error == done.error)
      ensures r.Err? && r.error != TooManyBytes ==> View() == old(View())
      ensures r == Err(TooManyBytes) ==> SameButPayload(old(View()), View(), Key(s, p))
    {
      var entries := GetOrCreateSubspaceStore(s);
      FlattenHolds(subspaces, s);
      if p !in entries { return Err(NoSuchEntry); }
      var record := entries[p];
      if record.digest != expectedDigest { return Err(PayloadAppendError.WrongEntry); }
      if record.available != 0 { return Err(IncorrectAvailableLength); }
      var payload, tooMany := TakeChunks(chunks, record.payloadLength);
      if !tooMany && |payload| == record.payloadLength && hash(payload) != record.digest { return Err(DigestMismatch); }
      SetAvailable(s, p, |payload|);
      return if tooMany then Err(TooManyBytes) else Ok(());
    }

    /** Append to a payload from a source that exposes all of its bytes at once. */
    method AppendSlice(s: SubspaceId, p: Path, expected: Option<nat>, bytes: nat, digestMatches: bool)
        returns (r: Result<bool, PayloadAppendError>)
      modifies this`subspaces, this`queued
      ensures (View(), r) == AppendTo(old(View()), Key(s, p), expected, bytes, digestMatches)
      ensures queued == old(queued) + AppendOps(namespace, old(View()), Key(s, p), expected, bytes, digestMatches)
      ensures AppendMeaning(namespace, old(View()), Key(s, p), expected, bytes, digestMatches, View(), r, queued[|old(queued)|..])
    {
      AppendMeans(namespace, View(), Key(s, p), expected, bytes, digestMatches);
      r := TryAppend(s, p, expected, bytes, digestMatches);
    }

    method TryAppend(s: SubspaceId, p: Path, expected: Option<nat>, bytes: nat, digestMatches: bool)
        returns (r: Result<bool, PayloadAppendError>)
      modifies this`subspaces, this`queued
      ensures (View(), r) == AppendTo(old(View()), Key(s, p), expected, bytes, digestMatches)
      ensures queued == old(queued) + AppendOps(namespace, old(View()), Key(s, p), expected, bytes, digestMatches)
    {
      var entries := GetOrCreateSubspaceStore(s);
      FlattenHolds(subspaces, s);
      if p !in entries { return Err(NoSuchEntry); }
      var record := entries[p];
      if expected.Some? && record.digest != expected.value { return Err(PayloadAppendError.WrongEntry); }
      r := AppendHeld(s, p, bytes, digestMatches);
    }

    method AppendHeld(s: SubspaceId, p: Path, bytes: nat, digestMatches: bool) returns (r: Result<bool, PayloadAppendError>)
      requires s in subspaces && p in subspaces[s]
      modifies this`subspaces, this`queued
      ensures (View(), r) == AppendTo(old(View()), Key(s, p), None, bytes, digestMatches)
      ensures queued == old(queued) + AppendOps(namespace, old(View()), Key(s, p), None, bytes, digestMatches)
    {
      ghost var m, k := View(), Key(s, p);
      FlattenAt(subspaces, k);
      var record := subspaces[s][p];
      var now := record.available + bytes;
      if now > record.payloadLength {
        AppendRefused(namespace, m, k, bytes, digestMatches);
        return Err(TooManyBytes);
      }
      if now == record.payloadLength && !digestMatches {
        AppendDiscarded(namespace, m, k, bytes);
        DiscardPayload(s, p);
        return Err(DigestMismatch);
      }
      AppendKept(namespace, m, k, bytes, digestMatches);
      KeepPayload(s, p, now);
      return Ok(now == record.payloadLength);
    }

    method DiscardPayload(s: SubspaceId, p: Path)
      requires s in subspaces && p in subspaces[s]
      modifies this`subspaces, this`queued
      ensures var m, k := old(View()), Key(s, p);
        && k in m && View() == m[k := m[k].(available := 0)]
        && queued == old(queued) + [PayloadForgotten(Restore(namespace, k, m[k]), 0)]
    {
      FlattenAt(subspaces, Key(s, p));
      queued := queued + [PayloadForgotten(Restore(namespace, Key(s, p), subspaces[s][p]), 0)];
      SetAvailable(s, p, 0);
    }

    method KeepPayload(s: SubspaceId, p: Path, now: nat)
      requires s in subspaces && p in subspaces[s]
      modifies this`subspaces, this`queued
      ensures var m, k := old(View()), Key(s, p);
        && k in m && View() == m[k := m[k].(available := now)]
        && queued == old(queued) + if now == m[k].available then [] else [Appended(Restore(namespace, k, m[k]), m[k].available, now)]
    {
      FlattenAt(subspaces, Key(s, p));
      var record := subspaces[s][p];
      if now != record.available {
        queued := queued + [Appended(Restore(namespace, Key(s, p), record), record.available, now)];
      }
      SetAvailable(s, p, now);
    }

    /** More bytes for a payload, if they fit. */
    method Grow(s: SubspaceId, p: Path, bytes: nat)
      modifies this`subspaces
      ensures View() == Grown(old(View()), Key(s, p), bytes)
    {
      FlattenAt(subspaces, Key(s, p));
      if s !in subspaces || p !in subspaces[s] { return; }
      var record := subspaces[s][p];
      if record.available + bytes > record.payloadLength { return; }
      SetAvailable(s, p, record.available + bytes);
    }

    method ForgetPayload(s: SubspaceId, p: Path, expected: Option<nat>) returns (r: Result<(), ForgetPayloadError>)
      modifies this
      ensures var done := Entries.ForgetPayload(old(View()), Key(s, p), expected);
        && (r.Ok? <==> done.Ok?) && (r.Err? ==> r.error == done.error)
        && View() == (if r.Ok? then done.value else old(View()))
      ensures r.Ok? ==> Key(s, p) in old(View())
      ensures queued == old(queued) + if r.Ok? then [ClearedOp(namespace, old(View()), Key(s, p))] else []
    {
      FlattenAt(subspaces, Key(s, p));
      if s !in subspaces || p !in subspaces[s] { return Err(NoSuchPayloadEntry); }
      var record := subspaces[s][p];
      if expected.Some? && record.digest != expected.value { return Err(WrongPayloadEntry); }
      queued := queued + [PayloadForgotten(Restore(namespace, Key(s, p), record), record.available)];
      ClearPayload(s, p);
      return Ok(());
    }

    method ClearPayload(s: SubspaceId, p: Path)
      requires s in subspaces && p in subspaces[s]
      modifies this`subspaces
      ensures View() == WithoutPayloads(old(View()), {Key(s, p)})
    {
      FlattenAt(subspaces, Key(s, p));
      OneWithout(View(), Key(s, p));
      SetAvailable(s, p, 0);
    }

    /** Forget the payload of every candidate that is not protected. */
    method ForgetAreaPayloads(area: Area, protected: Option<Area>) returns (count: nat, ghost ops: seq<QueuedOp>)
      modifies this
      ensures View() == WithoutPayloads(old(View()), Forgotten(old(View()), area, protected))
      ensures count == |Forgotten(old(View()), area, protected)|
      ensures IsForgetAreaPayloadsOps(namespace, old(View()), area, protected, ops) && queued == old(queued) + ops
    {
      var cs := Candidates(area);
      ghost var order;
      ghost var m, before := View(), queued;
      count, order := ClearUnprotected(cs, area, protected);
      ops := AreaCleared(namespace, m, area, protected, order, before, queued);
      if count > 0 {
        queued := queued + [AreaPayloadsForgotten(area, protected)];
      }
    }

    method ClearUnprotected(cs: seq<Key>, area: Area, protected: Option<Area>) returns (count: nat, ghost order: seq<Key>)
      requires Lists(cs, Forgotten(View(), area, None))
      modifies this
      ensures count == |order| && View() == WithoutPayloads(old(View()), Forgotten(old(View()), area, protected))
      ensures ClearedSoFar(namespace, old(View()), Forgotten(old(View()), area, protected), order, old(queued), queued)
    {
      ghost var m := View();
      ghost var target := Forgotten(m, area, protected);
      ghost var before, gone := queued, {};
      count, order := 0, [];
      NoneWithout(m);
      for i := 0 to |cs|
        invariant ClearedSoFar(namespace, m, gone, order, before, queued) && gone == Passed(target, cs, i)
        invariant count == |order| && View() == WithoutPayloads(m, gone)
      {
        count, gone, order := ClearCandidate(cs, i, area, protected, count, m, gone, order, before);
      }
      AllPassed(m, area, protected, cs);
    }

    method ClearCandidate(cs: seq<Key>, i: nat, area: Area, protected: Option<Area>, count: nat, ghost m: Store,
                          ghost gone: set<Key>, ghost order: seq<Key>, ghost before: seq<QueuedOp>)
        returns (count': nat, ghost gone': set<Key>, ghost order': seq<Key>)
      requires View() == WithoutPayloads(m, gone) && ClearedSoFar(namespace, m, gone, order, before, queued)
      requires i < |cs| && Lists(cs, Forgotten(m, area, None)) && count == |order| && gone == Passed(Forgotten(m, area, protected), cs, i)
      modifies this
      ensures gone' == Passed(Forgotten(m, area, protected), cs, i + 1) && count' == |order'|
      ensures View() == WithoutPayloads(m, gone') && ClearedSoFar(namespace, m, gone', order', before, queued)
    {
      var k := cs[i];
      NextIsNew(m, area, protected, cs, i);
      count', gone', order' := count, gone, order;
      ghost var log := queued;
      var cleared := ClearIfUnprotected(k, area, protected, m, gone);
      if cleared {
        ClearedStep(namespace, m, gone, order, before, log, k);
        count', gone', order' := count + 1, gone + {k}, order + [k];
      }
    }

    method ClearIfUnprotected(k: Key, area: Area, protected: Option<Area>, ghost m: Store, ghost gone: set<Key>)
        returns (cleared: bool)
      requires View() == WithoutPayloads(m, gone) && k !in gone && k in Forgotten(m, area, None)
      modifies this
      ensures cleared <==> k in Forgotten(m, area, protected)
      ensures cleared ==> View() == WithoutPayloads(m, gone + {k}) && queued == old(queued) + [ClearedOp(namespace, m, k)]
      ensures !cleared ==> View() == WithoutPayloads(m, gone) && queued == old(queued)
    {
      FlattenAt(subspaces, k);
      var record := subspaces[k.subspace][k.path];
      cleared := !(protected.Some? && AreaIncludes(protected.value, k.subspace, k.path, record.timestamp));
      if cleared {
        var _ := ForgetPayload(k.subspace, k.path, None);
        assert WithoutPayloads(WithoutPayloads(m, gone), {k}) == WithoutPayloads(m, gone + {k});
      }
    }

    method SetAvailable(s: SubspaceId, p: Path, available: nat)
      requires s in subspaces && p in subspaces[s]
      modifies this`subspaces
      ensures Key(s, p) in old(View()) && View() == old(View())[Key(s, p) := old(View())[Key(s, p)].(available := available)]
    {
      var entries := subspaces[s];
      var record := entries[p].(available := available);
      FlattenHolds(subspaces, s);
      FlattenInsert(subspaces, s, entries, p, record);
      assert subspaces[s := entries] == subspaces;
      subspaces := subspaces[s := entries[p := record]];
    }

    method ForgetEntry(s: SubspaceId, p: Path, expected: Option<nat>) returns (r: Result<(), ForgetError>)
      modifies this
      ensures (View(), r) == Entries.ForgetEntry(old(View()), Key(s, p), expected)
      ensures queued == old(queued) + ForgetEntryOps(namespace, old(View()), Key(s, p), expected)
      ensures ForgetEntryMeaning(namespace, old(View()), Key(s, p), expected, View(), r, queued[|old(queued)|..])
    {
      ForgetEntryMeans(namespace, View(), Key(s, p), expected);
      r := TryForget(s, p, expected);
    }

    method TryForget(s: SubspaceId, p: Path, expected: Option<nat>) returns (r: Result<(), ForgetError>)
      modifies this
      ensures (View(), r) == Entries.ForgetEntry(old(View()), Key(s, p), expected)
      ensures queued == old(queued) + ForgetEntryOps(namespace, old(View()), Key(s, p), expected)
    {
      var entries := GetOrCreateSubspaceStore(s);
      FlattenHolds(subspaces, s);
      if p !in entries { return Ok(()); }
      var record := entries[p];
      if expected.Some? && record.digest != expected.value { return Err(ForgetError.WrongEntry); }
      queued := queued + [EntryForgotten(Restore(namespace, Key(s, p), record), record.available)];
      FlattenRemove(subspaces, s, {p});
      assert KeysAt(s, {p}) == {Key(s, p)};
      subspaces := subspaces[s := entries - {p}];
      return Ok(());
    }

    /** The walk over one subspace that collects the entries inside an area. */
    method SubspaceCandidates(area: Area, s: SubspaceId, entries: map<Path, Record>) returns (cs: seq<Key>)
      requires HoldsAt(View(), s, entries)
      ensures Lists(cs, set p | p in entries && InArea(area, p, entries[p]) :: Key(s, p))
    {
      cs := [];
      var remaining := entries.Keys;
      while remaining != {}
        invariant remaining <= entries.Keys
        invariant Lists(cs, set p | p in entries && p !in remaining && InArea(area, p, entries[p]) :: Key(s, p))
        decreases remaining
      {
        var path := TakeFirst(remaining);
        ghost var found := set p | p in entries && p !in remaining && InArea(area, p, entries[p]) :: Key(s, p);
        remaining := remaining - {path};
        ghost var found' := set p | p in entries && p !in remaining && InArea(area, p, entries[p]) :: Key(s, p);
        if InArea(area, path, entries[path]) {
          ListsAppend(cs, found, Key(s, path));
          cs := cs + [Key(s, path)];
          assert found' == found + {Key(s, path)};
        } else {
          assert found' == found;
        }
      }
      assert (set p | p in entries && InArea(area, p, entries[p]) :: Key(s, p)) ==
        (set p | p in entries && p !in remaining && InArea(area, p, entries[p]) :: Key(s, p));
    }

    /** The entries inside an area, subspace by subspace. */
    method Candidates(area: Area) returns (cs: seq<Key>)
      modifies this`subspaces
      ensures View() == old(View())
      ensures Lists(cs, Forgotten(View(), area, None))
    {
      match area.subspace
      case Id(s) =>
        var entries := GetOrCreateSubspaceStore(s);
        FlattenHolds(subspaces, s);
        cs := SubspaceCandidates(area, s, entries);
        CandidatesOfOne(View(), area, s, entries, cs);
      case Any =>
        cs := [];
        var remaining := subspaces.Keys;
        ghost var ss := subspaces;
        while remaining != {}
          invariant subspaces == ss && remaining <= ss.Keys
          invariant Lists(cs, set k | k in Forgotten(Flatten(ss), area, None) && k.subspace !in remaining)
          decreases remaining
        {
          ghost var least := LeastKeyExists(remaining);
          var s :| s in remaining && forall other | other in remaining :: BytesLeq(s, other);
          FlattenHolds(subspaces, s);
          var more := SubspaceCandidates(area, s, subspaces[s]);
          CandidatesGrow(ss, area, s, cs, more, remaining);
          cs := cs + more;
          remaining := remaining - {s};
        }
        forall k | k in Forgotten(Flatten(ss), area, None) ensures k.subspace in ss { FlattenAt(ss, k); }
        assert Forgotten(Flatten(ss), area, None) ==
          set k | k in Forgotten(Flatten(ss), area, None) && k.subspace !in remaining;
    }

    method GetEntry(s: SubspaceId, p: Path, ignore: QueryIgnoreParams) returns (r: Option<LengthyEntry>)
      modifies this`subspaces
      ensures View() == old(View())
      ensures r == EntryAt(namespace, View(), Key(s, p), ignore)
      ensures AnswersPlace(namespace, View(), Key(s, p), ignore, r)
    {
      var entries := GetOrCreateSubspaceStore(s);
      FlattenHolds(subspaces, s);
      if p !in entries || IsIgnored(ignore, entries[p]) { return None; }
      return Some((Restore(namespace, Key(s, p), entries[p]), entries[p].available));
    }

    /** The entries of an area, without those to be ignored. */
    method QueryArea(area: Area, ignore: QueryIgnoreParams) returns (items: seq<LengthyEntry>, ghost order: seq<Key>)
      modifies this`subspaces
      ensures View() == old(View())
      ensures Answers(namespace, View(), AreaHits(View(), area, ignore), order, items)
      ensures AnswersArea(namespace, View(), area, ignore, items)
    {
      items, order := ListArea(area, ignore);
      AreaAnswer(namespace, View(), area, ignore, order, items);
    }

    method ListArea(area: Area, ignore: QueryIgnoreParams) returns (items: seq<LengthyEntry>, ghost order: seq<Key>)
      modifies this`subspaces
      ensures View() == old(View())
      ensures Answers(namespace, View(), AreaHits(View(), area, ignore), order, items)
    {
      var cs := Candidates(area);
      ghost var ss, m := subspaces, View();
      ghost var done := {};
      items, order := [], [];
      for i := 0 to |cs|
        invariant subspaces == ss
        invariant Answers(namespace, m, done, order, items) && done == Passed(AreaHits(m, area, ignore), cs, i)
      {
        NextCandidate(m, area, ignore, cs, i);
        items, order, done := ProduceCandidate(cs[i], ignore, items, order, done);
      }
      AllCandidates(m, area, ignore, cs);
    }

    method ProduceCandidate(k: Key, ignore: QueryIgnoreParams, items: seq<LengthyEntry>, ghost order: seq<Key>, ghost done: set<Key>)
        returns (items': seq<LengthyEntry>, ghost order': seq<Key>, ghost done': set<Key>)
      requires k in View() && k !in done && Answers(namespace, View(), done, order, items)
      ensures done' == done + if IsIgnored(ignore, View()[k]) then {} else {k}
      ensures Answers(namespace, View(), done', order', items')
    {
      FlattenAt(subspaces, k);
      var record := subspaces[k.subspace][k.path];
      if IsIgnored(ignore, record) { return items, order, done; }
      AnswersStep(namespace, View(), done, order, items, k);
      return items + [(Restore(namespace, k, record), record.available)], order + [k], done + {k};
    }

    /** Forget every candidate that is not protected. */
    method ForgetArea(area: Area, protected: Option<Area>) returns (count: nat, ghost ops: seq<QueuedOp>)
      modifies this
      ensures (View(), count) == Entries.ForgetArea(old(View()), area, protected)
      ensures ForgetAreaMeaning(old(View()), area, protected, View(), count)
      ensures IsForgetAreaOps(namespace, old(View()), area, protected, ops) && queued == old(queued) + ops
    {
      ForgetAreaMeans(View(), area, protected);
      count, ops := TryForgetArea(area, protected);
    }

    method TryForgetArea(area: Area, protected: Option<Area>) returns (count: nat, ghost ops: seq<QueuedOp>)
      modifies this
      ensures (View(), count) == Entries.ForgetArea(old(View()), area, protected)
      ensures IsForgetAreaOps(namespace, old(View()), area, protected, ops) && queued == old(queued) + ops
    {
      var cs := Candidates(area);
      ghost var order;
      ghost var m, before := View(), queued;
      count, order := ForgetUnprotected(cs, area, protected);
      ops := AreaReported(namespace, m, area, protected, order, before, queued);
      if count > 0 {
        queued := queued + [AreaForgotten(area, protected)];
      }
    }

    method ForgetUnprotected(cs: seq<Key>, area: Area, protected: Option<Area>) returns (count: nat, ghost order: seq<Key>)
      requires Lists(cs, Forgotten(View(), area, None))
      modifies this
      ensures count == |order| && View() == old(View()) - Forgotten(old(View()), area, protected)
      ensures Reported(namespace, old(View()), Forgotten(old(View()), area, protected), order, old(queued), queued)
    {
      ghost var m := View();
      ghost var target := Forgotten(m, area, protected);
      ghost var before, gone := queued, {};
      count, order := 0, [];
      for i := 0 to |cs|
        invariant Reported(namespace, m, gone, order, before, queued) && gone == Passed(target, cs, i)
        invariant count == |order| && View() == m - gone
      {
        NextIsNew(m, area, protected, cs, i);
        var forgot;
        forgot, gone, order := ForgetCandidate(cs[i], area, protected, m, gone, order, before);
        if forgot { count := count + 1; }
      }
      AllPassed(m, area, protected, cs);
    }

    method ForgetCandidate(k: Key, area: Area, protected: Option<Area>, ghost m: Store,
                           ghost gone: set<Key>, ghost order: seq<Key>, ghost before: seq<QueuedOp>)
        returns (forgot: bool, ghost gone': set<Key>, ghost order': seq<Key>)
      requires View() == m - gone && Reported(namespace, m, gone, order, before, queued)
      requires k !in gone && k in Forgotten(m, area, None)
      modifies this
      ensures forgot <==> k in Forgotten(m, area, protected)
      ensures gone' == gone + if forgot then {k} else {}
      ensures View() == m - gone' && Reported(namespace, m, gone', order', before, queued)
      ensures |order'| == |order| + if forgot then 1 else 0
    {
      gone', order' := gone, order;
      ghost var log := queued;
      forgot := ForgetIfUnprotected(k, area, protected, m, gone);
      if forgot {
        ReportedStep(namespace, m, gone, order, before, log, k);
        gone', order' := gone + {k}, order + [k];
      }
    }

    method ForgetIfUnprotected(k: Key, area: Area, protected: Option<Area>, ghost m: Store, ghost gone: set<Key>)
        returns (forgot: bool)
      requires View() == m - gone && k !in gone && k in Forgotten(m, area, None)
      modifies this
      ensures forgot <==> k in Forgotten(m, area, protected)
      ensures forgot ==> View() == m - (gone + {k})
      ensures forgot ==> queued == old(queued) + [EntryForgotten(Restore(namespace, k, m[k]), m[k].available)]
      ensures !forgot ==> View() == m - gone && queued == old(queued)
    {
      FlattenAt(subspaces, k);
      var record := subspaces[k.subspace][k.path];
      forgot := !(protected.Some? && AreaIncludes(protected.value, k.subspace, k.path, record.timestamp));
      if forgot {
        var _ := ForgetEntry(k.subspace, k.path, None);
        assert m - gone - {k} == m - (gone + {k});
      }
    }
  }

  predicate InArea(area: Area, p: Path, r: Record) {
    TimesInclude(area.times, r.timestamp) && area.path <= p
  }

  /** The elements of a set that a walk has passed. */
  function Passed(target: set<Key>, cs: seq<Key>, n: nat): set<Key>
    requires n <= |cs|
  {
    if n == 0 then {}
    else Passed(target, cs, n - 1) + if cs[n - 1] in target then {cs[n - 1]} else {}
  }

  lemma {:induction false} PassedMeaning(target: set<Key>, cs: seq<Key>, n: nat)
    requires n <= |cs|
    ensures forall k :: k in Passed(target, cs, n) <==> k in target && exists j :: 0 <= j < n && cs[j] == k
  {
    if n > 0 { PassedMeaning(target, cs, n - 1); }
  }

  lemma NextCandidate(m: Store, area: Area, ignore: QueryIgnoreParams, cs: seq<Key>, i: nat)
    requires i < |cs| && Lists(cs, Forgotten(m, area, None))
    ensures cs[i] in m && cs[i] !in Passed(AreaHits(m, area, ignore), cs, i)
    ensures cs[i] in AreaHits(m, area, ignore) <==> !IsIgnored(ignore, m[cs[i]])
  {
    ListsMembers(cs, Forgotten(m, area, None));
    PassedMeaning(AreaHits(m, area, ignore), cs, i);
    assert cs[i] in cs;
  }

  lemma AllCandidates(m: Store, area: Area, ignore: QueryIgnoreParams, cs: seq<Key>)
    requires Lists(cs, Forgotten(m, area, None))
    ensures Passed(AreaHits(m, area, ignore), cs, |cs|) == AreaHits(m, area, ignore)
  {
    var target := AreaHits(m, area, ignore);
    ListsMembers(cs, Forgotten(m, area, None));
    PassedMeaning(target, cs, |cs|);
    forall k | k in target ensures k in Passed(target, cs, |cs|) {
      assert k in Forgotten(m, area, None) && k in cs;
      var j :| 0 <= j < |cs| && cs[j] == k;
    }
  }

  lemma NextIsNew(m: Store, area: Area, protected: Option<Area>, cs: seq<Key>, i: nat)
    requires i < |cs| && Lists(cs, Forgotten(m, area, None))
    ensures cs[i] in Forgotten(m, area, None) && cs[i] !in Passed(Forgotten(m, area, protected), cs, i)
  {
    ListsMembers(cs, Forgotten(m, area, None));
    PassedMeaning(Forgotten(m, area, protected), cs, i);
    assert cs[i] in cs;
  }

  lemma AllPassed(m: Store, area: Area, protected: Option<Area>, cs: seq<Key>)
    requires Lists(cs, Forgotten(m, area, None))
    ensures Passed(Forgotten(m, area, protected), cs, |cs|) == Forgotten(m, area, protected)
  {
    var target := Forgotten(m, area, protected);
    ListsMembers(cs, Forgotten(m, area, None));
    PassedMeaning(target, cs, |cs|);
    forall k | k in target ensures k in Passed(target, cs, |cs|) {
      assert k in Forgotten(m, area, None) && k in cs;
      var j :| 0 <= j < |cs| && cs[j] == k;
    }
  }

  /** In an area of one subspace, the walk over that subspace sees everything. */
  lemma CandidatesOfOne(m: Store, area: Area, s: SubspaceId, entries: map<Path, Record>, cs: seq<Key>)
    requires area.subspace == Id(s) && HoldsAt(m, s, entries)
    requires Lists(cs, set p | p in entries && InArea(area, p, entries[p]) :: Key(s, p))
    ensures Lists(cs, Forgotten(m, area, None))
  {
    var found := set p | p in entries && InArea(area, p, entries[p]) :: Key(s, p);
    forall k | k in Forgotten(m, area, None) ensures k in found { assert k == Key(s, k.path); }
    assert found == Forgotten(m, area, None);
  }

  lemma CandidatesGrow(ss: Subspaces, area: Area, s: SubspaceId, cs: seq<Key>, more: seq<Key>, remaining: set<SubspaceId>)
    requires area.subspace.Any? && s in remaining && remaining <= ss.Keys
    requires Lists(cs, set k | k in Forgotten(Flatten(ss), area, None) && k.subspace !in remaining)
    requires Lists(more, set p | p in ss[s] && InArea(area, p, ss[s][p]) :: Key(s, p))
    ensures Lists(cs + more, set k | k in Forgotten(Flatten(ss), area, None) && k.subspace !in remaining - {s})
  {
    var all := Forgotten(Flatten(ss), area, None);
    var old_, new_ := set k | k in all && k.subspace !in remaining, set p | p in ss[s] && InArea(area, p, ss[s][p]) :: Key(s, p);
    forall k: Key | k.subspace == s ensures k in all <==> k in new_ { OfSubspace(ss, area, s, k); }
    assert (set k | k in all && k.subspace !in remaining - {s}) == old_ + new_;
    ListsConcat(cs, old_, more, new_);
  }

  lemma OfSubspace(ss: Subspaces, area: Area, s: SubspaceId, k: Key)
    requires area.subspace.Any? && s in ss && k.subspace == s
    ensures k in Forgotten(Flatten(ss), area, None) <==> k in set p | p in ss[s] && InArea(area, p, ss[s][p]) :: Key(s, p)
  {
    FlattenAt(ss, k);
    assert k == Key(s, k.path);
  }

  /** Walking one subspace finds all that an entry prunes, and nothing else. */
  lemma PrunableAt(m: Store, e: Entry, entries: map<Path, Record>, found: set<Path>)
    requires HoldsAt(m, e.subspace, entries)
    requires found == set p | p in entries && Replaces(e, Key(e.subspace, p), entries[p])
    ensures Prunable(m, e) == KeysAt(e.subspace, found)
    ensures found == {} <==> Prunable(m, e) == {}
  {
    forall k | k in Prunable(m, e) ensures k in KeysAt(e.subspace, found) {
      assert k == Key(e.subspace, k.path);
    }
    if found != {} {
      var p :| p in found;
      assert Key(e.subspace, p) in Prunable(m, e);
    }
  }

  lemma PruneIsMinus(m: Store, e: Entry, gone: set<Key>)
    requires gone == Prunable(m, e)
    ensures Prune(m, e) == m - gone
  {}
}
