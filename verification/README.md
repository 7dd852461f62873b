# Willow, modelled in Dafny

This project models the parts of the Willow implementation where the hard promises are made, and proves
those promises for every input, every run, or every reachable state.

- **Paths and grouping** (`Paths`, `Grouping`, `ByteStrings`): the path order, the least path that is
  greater but not prefixed, the successor functions, areas, three-dimensional ranges, and the conversion of
  an area into a range.
- **The prefix-pruned store** (`Entries`, `Convergence`, `ControlStores`, `Queries`): what ingesting and
  forgetting mean on a map of records, why ingestion converges, and the reference store of the fuzzing crate
  as a class over nested maps.
- **The persistent store** (`KeyCodec`, `TreeIndex`, `SledTrees`, `SledQueries`, `SledStores`,
  `StoreEquality`, `Fingerprints`, `Cuts`, `RangeSplits`): escaped keys, two trees in byte order, prefix scans, range
  scans, the differential run against the reference store, and the splitting of ranges of times.
- **Events** (`StoreEvents`, `EventLog`, `Replay`, `Alerts`, `AreaReports`, `AreaSubscriptions`,
  `StoreEventsCheck`): the shared queue, the cursor cells, the producers of events, alerts, reports of forgotten
  areas, and the loop that rebuilds what a store holds of an area from events.
- **Flow control** (`Guarantees`, `ServerLogic`, `FlowControl`, `ServerSteps`): the credit cells of client and
  server, the server's buffer, both ends of a channel as one system of steps, and the server taking its steps.
- **Transport encryption** (`EncryptedStream`, `DecryptedStream`, `Handshake`): chunked encryption under
  counting nonces, and the three-message handshake (an XX pattern of the Noise Protocol Framework,
  section 7.5).
- **Relative encodings** (`PathEncodings`, `PrivateEncodings`, `Capabilities`): compact integers as in the
  compact integer section of the Willow Encodings specification, paths, areas relative to a private interest,
  and communal capabilities relative to an earlier one and an entry.
- **Sideloading** (`Drops`, `AreaTallies`, `StoreDrops`, `DropIngestion`, `Sideloading`): the encoding of drops,
  drops made of the areas of a store, which drops are ingested, and what arrives in another store.

Code that changes state in place is a class or a method with loops. Each such method is proved equal to a
specification function on plain values, and the promises are lemmas about those functions. Subspace ids are
byte strings of one fixed width, compared and encoded as they are. Payload digests are numbers, because only
their order is used. Signatures, hashes, ciphers, tokens and fingerprints are arbitrary functions with the
laws that the traits state.

## Where the code does less than its documentation says

These are results of the model. The code is kept as it is, and the exact condition is proved.

- The range made of an area uses the path successor where the least greater path that is not prefixed is
  needed (data-model/src/grouping/range_3d.rs:181). It is exact if and only if nothing fits below the path of
  the area and the successor does not carry, or the area has no time (`Grouping.RangeFromAreaExactIff`). Area
  queries of the persistent store go through it (`Queries.AreaQueryAgreesIff`,
  `StoreEquality.CountMatchesQueryIff`), and so do area subscriptions of both stores (fuzz/src/store.rs:803-809,
  store_simple_sled/src/lib.rs:1148-1156): what a subscriber to an area collects is what the store holds of
  the area in all runs exactly if the range is exact (`AreaSubscriptions.AreaReplayIff`, and
  `AreaSubscriptions.FullAreaMissed` for an area where it is not).
- Creating a drop counts the entries of each area and then lists them through that range. A drop of some areas
  can be decoded, from every store, exactly if the ranges of all of them are exact (`StoreDrops.AreasDropIff`,
  and `StoreDrops.FullAreaDropFails` for one that cannot); the drop of a given store, exactly if the numbers
  agree in sum (`StoreDrops.CreateDrop`).
- An obsolete entry that comes with its payload ends the ingestion of a drop with an error, so that the order of
  entries decides (`DropIngestion.OrderDecides`). Which drops are ingested can be read off the list, for every
  drop and every store (`DropIngestion.DropIngestedIff`); if digests tell entries apart, those in which no
  entry with its payload follows one that prunes it (`DropIngestion.EmptyStoreIngestsIff`).
- A subscriber that ignores incomplete payloads hears of some entries without an alert before them, exactly
  those inserted before it subscribed (`Alerts.AlertsFirstIff`, `Alerts.LateSubscriberNotAlerted`).
- The path successor is not least when the increment carries (`Paths.SuccessorMeaning`).
- The successor of the 32-byte subspace ids changes every byte (`Grouping.Successor25Exact`), so that the
  range of an area of one subspace is hardly ever exact for them (`Grouping.Range25ExactIff`).
- Ingestion also removes entries that tie with the new one, so the order matters exactly if there are ties
  (`Convergence.ConvergenceIff`).
- Popping an operation from a full event queue does not change how ids are counted. A lagging subscriber then
  silently loses operations instead of being cancelled (`EventLog.SawEverythingIff`).
- The persistent store reports a forgotten area by one operation, which a subscriber may never hear of
  (`AreaReports.AreaReportReplaysIff`). The reference store reports each entry first, which always replays.
- With incomplete payloads ignored, what a subscriber collects keeps up with an operation on a payload only if
  that payload is completed at once, of an entry that disturbs no subscribed one, or was not subscribed to
  (`Replay.ReplayOpIff`).
- The test for entries that might prune into a range passes for some that cannot (`Grouping.CouldPruneIff`,
  `Grouping.CouldPruneFalseAlarm`).
- Credit beyond a bound is refused, and there all the same (`Guarantees.GrantMeaning`).
- A path that is decoded against a private one may leave the reference (`PrivateEncodings.DecodedPathExtendsIff`).
- Reducing credit to a target also raises it (`Guarantees.ReduceMeaning`).
- With a tag in front of the text, the handshake decodes the peer's key from the wrong place
  (`Handshake.SealedKeyReadIff`, `Handshake.PrependedTagMisread`).
- Splitting a range counts its entries but walks others too (`RangeSplits.OpenWalkExactIff`). An empty range
  that the walk does not find empty makes the producer underflow (`RangeSplits.AllSplits`). Without an end in
  time, and with places excluded, splits can overlap, exactly if the walk overruns (`RangeSplits.PartitionIff`).
- The server checks the room in its buffer, not the credit of the client
  (`ServerLogic.ServerState.ReceiveSendToChannel`).
- Areas whose times end before they start do not survive the private encoding
  (`PrivateEncodings.PrivateAreaRoundTripIff`).

## Model

| member | source | states |
|---|---|---|
| Paths.ComponentGreaterButNotPrefixed | fuzz/src/path.rs:93-104 | the least component above a given one that does not extend it, none exactly if every byte is 255 |
| Paths.GreaterButNotPrefixed | fuzz/src/path.rs:311-325 | among all paths within the three limits, the least one above a path that does not extend it; none if and only if there is none |
| Paths.PrefixIsInterval | fuzz/src/path.rs:254-262 | with that bound, extending a path is the same as lying between the path and the bound |
| Paths.TryIncrementFixedWidth | fuzz/src/path.rs:75-91 | the loop computes the big-endian increment of fixed width, and fails exactly on all bytes 255 |
| Paths.Successor | fuzz/src/path.rs:286-308 | the search from the last component to the first computes the successor function below |
| Paths.SuccessorMeaning | data-model/src/path/mod.rs:487-542 | the successor is a greater valid path; it is none exactly on the greatest path; it is the least greater path if and only if its increment does not carry over a trailing 255 byte |
| Paths.SuccessorOvershoots | fuzz/src/path.rs:79-87 | a concrete path whose successor skips a path, against the documented leastness |
| Paths.NewMaxPath | data-model/src/path/mod.rs:135-161 | the greatest path within the limits; building it fails exactly if the limit on the path length cannot be reached by the components |
| Paths.PathLessTotal | fuzz/src/path.rs:328-341 | the path order is total |
| Paths.PathLessTransitive | fuzz/src/path.rs:328-341 | the path order is transitive |
| Grouping.SubspaceSuccessorMeaning | data-model/src/parameters.rs:14-21 | adding one to a fixed-width subspace id gives the least greater id, as the trait demands, and none for the greatest |
| Grouping.Successor25 | willow_25/src/subspace.rs:60-78 | the 32-byte ids have a successor loop without early exit: it bumps every byte |
| Grouping.Successor25Exact | willow_25/src/subspace.rs:60-78 | that loop computes the least greater id if and only if all bytes but the first are 255 |
| Grouping.SubspaceRangeMeaning | data-model/src/grouping/range_3d.rs:170-179 | the subspace range made of an area holds exactly the subspaces of the area |
| Grouping.RangeFromAreaExactIff | data-model/src/grouping/range_3d.rs:170-193 | the three-dimensional range made of an area covers exactly the entries of the area if and only if the area has no time at all, or nothing fits below its path and the path successor does not carry; for every other area it misses or adds entries, since it uses the successor where the least path that is not prefixed is called for |
| Grouping.Range25ExactIff | willow_25/src/subspace.rs:60-78 | the same range with the successor of the 32-byte ids is exact if and only if the area has no time, or nothing fits below its path, the path successor does not carry, and an area of one subspace has an id whose bytes but the first are all 255 |
| Grouping.CouldPruneSound | data-model/src/grouping/range_3d.rs:115-131 | the test for entries that might prune into a range has no false negatives |
| Grouping.CouldPruneIff | data-model/src/grouping/range_3d.rs:115-131 | over a range that holds its first path at its first time, the test passes exactly if the entry could prune something inside, or its path begins with the first one and lies behind the end |
| Grouping.CouldPruneFalseAlarm | data-model/src/grouping/range_3d.rs:115-131 | a range and an entry for which it passes although nothing inside could be pruned |
| Grouping.AreaIncludesAreaIff | data-model/src/grouping/area.rs:182-200 | an area with some time includes another one if and only if it holds everything the other one holds |
| KeyCodec.SptKeyOrder | store_simple_sled/src/lib.rs:1383-1420 | byte order of the keys of the first tree is the order of (subspace, path, timestamp) |
| KeyCodec.TspKeyOrder | store_simple_sled/src/lib.rs:1456-1493 | byte order of the keys of the second tree is the order of (timestamp, subspace, path) |
| KeyCodec.ScanPrefixIff | store_simple_sled/src/lib.rs:1343-1381 | an unterminated key is a byte prefix of a full key if and only if the subspace is the same and the path is a component prefix; a terminated one, if and only if the path is the same |
| KeyCodec.ScanSubspaceIff | store_simple_sled/src/lib.rs:202-206 | a subspace id is a byte prefix of exactly the keys of that subspace |
| KeyCodec.SptKeyInjective | store_simple_sled/src/lib.rs:1383-1420 | different places and times have different keys in the first tree |
| KeyCodec.TspKeyInjective | store_simple_sled/src/lib.rs:1456-1493 | different places and times have different keys in the second tree |
| KeyCodec.EncodeSubspacePathKey | store_simple_sled/src/lib.rs:1343-1381 | the encoding loop produces the escaped key, with or without the path end |
| KeyCodec.EncodeSptEntryKey | store_simple_sled/src/lib.rs:1383-1420 | the encoding loop produces the first tree key |
| KeyCodec.EncodeTspEntryKey | store_simple_sled/src/lib.rs:1456-1493 | the encoding loop produces the second tree key |
| KeyCodec.ComponentBytes | store_simple_sled/src/lib.rs:1561-1601 | the unescaping loop reads one component, or finds the path end, exactly as the recursive parser does |
| KeyCodec.DecodeSptEntryKey | store_simple_sled/src/lib.rs:1422-1454 | decoding inverts the encoding of first tree keys |
| KeyCodec.DecodeTspEntryKey | store_simple_sled/src/lib.rs:1495-1527 | decoding inverts the encoding of second tree keys |
| KeyCodec.EncodedSptKeyExample | store_simple_sled/src/lib.rs:1383-1420 | a key of the first tree byte by byte |
| KeyCodec.EncodedTspKeyExample | store_simple_sled/src/lib.rs:1456-1493 | a key of the second tree byte by byte |
| Entries.NewerIsLexicographic | data-model/src/entry.rs:94-100 | newer means lexicographically greater by timestamp, digest and length, and decides between any two different ranks |
| Convergence.PruneTransitive | data-model/src/entry.rs:110-118 | pruning is transitive |
| Convergence.IngestContents | fuzz/src/store.rs:341-395 | for both values of the flag that prevents pruning, in terms of the held entries alone: an entry is obsolete if and only if a held one prunes it; otherwise pruning is prevented if and only if the flag is set and a held entry is dominated; in both cases the held entries stay, and in every other case they become the join, ties included |
| Convergence.CoversAll | fuzz/src/store.rs:341-395 | after any sequence of ingestions the held entries form an antichain that dominates everything ingested |
| Convergence.IngestionConverges | fuzz/src/store.rs:341-395 | any order with any repeats ends with exactly the entries that no other ingested entry prunes, if no two of those tie |
| Convergence.ConvergenceIff | fuzz/src/store.rs:89-124 | the order of ingestion does not matter for a finite collection if and only if no two different unpruned entries related by prefix tie in timestamp, digest and length |
| Convergence.TieMatters | fuzz/src/store.rs:93-94 | two tying entries: whichever is ingested last survives |
| StoreEvents.ForgetEntryMeans | fuzz/src/store.rs:522-556 | what forgetting an entry means, guard included, for state, answer and report |
| StoreEvents.ForgetAreaMeans | fuzz/src/store.rs:558-620 | a record of the area goes if and only if the protected area does not hold it, and all that go are counted |
| ControlStores.ControlStore.FindBlocker | fuzz/src/store.rs:355-372 | the walk for a newer entry at a prefix finds the first one in path order, or there is none |
| ControlStores.ControlStore.PruneMaybe | fuzz/src/store.rs:77-124 | everything dominated is removed and the entry inserted, unless pruning is prevented and there is something to prune |
| ControlStores.ControlStore.Prune | fuzz/src/store.rs:47-53 | pruning without inserting |
| ControlStores.ControlStore.IngestEntry | fuzz/src/store.rs:341-395 | new state, result (with the witness for obsolete entries) and queued operation of an ingestion; what they mean for the held entries, with and without prevention of pruning |
| ControlStores.ControlStore.ForgetEntry | fuzz/src/store.rs:522-556 | forgetting one entry: with another expected digest the entry stays, the answer is an error and nothing is queued; otherwise exactly this entry is removed, and reported if it was there |
| ControlStores.ControlStore.AppendPayload | fuzz/src/store.rs:397-520 | the payload of an entry of which nothing is there yet: state and result of appending chunks to it, whichever way the source cuts them, with the errors in their order |
| ControlStores.ControlStore.AppendSlice | fuzz/src/store.rs:397-520 | appending to a payload whatever is there of it, from a source that exposes its bytes at once: a missing entry, another digest than expected and too many bytes are refused and change nothing; a complete payload that does not match is discarded and reported as forgotten; any other one grows by as much as is reported |
| ControlStores.ControlStore.Candidates | fuzz/src/store.rs:558-590 | all entries of an area, each once, subspace by subspace |
| ControlStores.ControlStore.ForgetArea | fuzz/src/store.rs:558-620 | exactly the unprotected entries of the area are removed, counted, and reported one by one before the area itself |
| ControlStores.ControlStore.ForgetPayload | fuzz/src/store.rs:622-656 | the entry stays and nothing of its payload is left; a missing entry or another expected digest is an error; reported with what was available |
| ControlStores.ControlStore.ForgetAreaPayloads | fuzz/src/store.rs:658-722 | exactly the unprotected entries of the area lose their payloads, are counted, and are reported one by one before the area itself |
| ControlStores.ControlStore.GetEntry | fuzz/src/store.rs:758-793 | the entry at a place with what is available of it, unless it is to be ignored for an empty payload, or for one of which not all is available |
| ControlStores.ControlStore.QueryArea | fuzz/src/store.rs:147-238 | a record of the area is among the items, once, if and only if it is not ignored: for an empty payload, or for one of which not all is available |
| SledTrees.DecodeRecord | store_simple_sled/src/lib.rs:1422-1454 | decoding a key and its value gives the record that the key stands for |
| SledTrees.FindNewer | store_simple_sled/src/lib.rs:186-228 | the scan of one subspace finds the same first newer entry, or none exists |
| SledTrees.CollectPrunable | store_simple_sled/src/lib.rs:340-385 | the prefix scan finds exactly the keys of the entries to prune, and stops exactly if pruning is prevented and there are any |
| SledTrees.TranslateKeys | store_simple_sled/src/lib.rs:387-415 | the keys to prune translate to the keys of the same records in the second tree |
| SledTrees.FindExact | store_simple_sled/src/lib.rs:237-247 | the first key under a terminated path key is the one key of that place |
| SledTrees.CollectForgettable | store_simple_sled/src/lib.rs:777-815 | the scan over an area finds exactly the keys of the entries to forget, and their number |
| SledTrees.CountIncluded | store_simple_sled/src/lib.rs:2133-2164 | the scan counts exactly the entries of an area |
| SledTrees.FirstInByteOrder | store_simple_sled/src/lib.rs:204-225 | within a subspace, first in byte order is first in path order, so that both stores report the same witness |
| SledStores.SledStore.IngestEntry | store_simple_sled/src/lib.rs:301-424 | the two trees keep holding the same records, each once; state, result and queued operation are those of the map of records, with the same meaning for the held entries |
| SledStores.SledStore.ForgetEntry | store_simple_sled/src/lib.rs:695-762 | one entry leaves both trees; state, result and operation are those of the map |
| SledStores.SledStore.ForgetArea | store_simple_sled/src/lib.rs:764-844 | the unprotected entries of the area leave both trees and are counted; only the area is reported, even if nothing was forgotten |
| SledStores.SledStore.SetLocalLength | store_simple_sled/src/lib.rs:862-897 | rewriting the local length, as payload operations do, keeps both trees in agreement |
| SledStores.SledStore.CountArea | store_simple_sled/src/lib.rs:2133-2164 | the count of an area is the number of records it includes |
| SledStores.SledStore.GetEntry | store_simple_sled/src/lib.rs:1092-1138 | the entry at a place with what is available of it, unless it is to be ignored for an empty payload, or for one of which not all is available |
| SledStores.SledStore.QueryRange | store_simple_sled/src/lib.rs:1810-1889 | a scan between two keys yields each entry of the range, once, unless its payload is empty, or not all available, and such ones are ignored |
| SledStores.SledStore.QueryArea | store_simple_sled/src/lib.rs:1140-1146 | an area is answered by the range made of it, without what is ignored |
| SledStores.SledStore.Summarise | store_simple_sled/src/lib.rs:1247-1264 | size and fingerprint of a range |
| SledQueries.RangeInsideScan | store_simple_sled/src/lib.rs:1818-1844 | no entry of a range lies outside of the scanned keys, whichever ends are open |
| SledQueries.QueryRange | store_simple_sled/src/lib.rs:1813-1887 | the loop over the scan yields exactly the records of the range whose payloads are not to be ignored |
| Queries.AnswersDetermine | fuzz/src/store.rs:1140-1172 | two answers have the same members if and only if they were asked for the same records |
| Queries.AnswersDescribe | fuzz/src/store_events.rs:242-300 | answers of two different stores have the same members if and only if the records they were asked for are the same, with the same contents |
| Queries.AreaQueryAgreesIff | store_simple_sled/src/lib.rs:1140-1146 | asking for an area through its range finds the same records in every store if and only if that range is exact |
| Queries.AreaQueryKeepsPath | store_simple_sled/src/lib.rs:1140-1146 | the entry at the path of the area itself is never missed or added |
| Queries.RangeAnswer | store_simple_sled/src/lib.rs:1813-1887 | what it means to answer for a range: a record is found if and only if its place and time lie in the range, and it is ignored neither for an empty payload nor for one of which not all is available |
| Queries.AreaAnswer | fuzz/src/store.rs:147-238 | the same for an area |
| StoreEquality.CheckOp | fuzz/src/store.rs:950-1172 | both stores give the same answer to every operation and stay equal |
| StoreEquality.CheckStoreEquality | fuzz/src/store.rs:928-1175 | over any run, the reference store and the persistent store never differ, except possibly on area queries whose range is not exact |
| StoreEquality.CountMatchesQueryIff | store_simple_sled/src/lib.rs:2133-2164 | counting an area and listing it give the same number in every store if and only if the range of the area is exact |
| Fingerprints.FoldAny | store_simple_sled/src/lib.rs:1252-1261 | a fingerprint does not depend on the order in which entries are combined |
| Fingerprints.FoldFew | store_simple_sled/src/lib.rs:1252-1261 | no entries have the neutral fingerprint, and one has that of its record with what is available of it |
| Fingerprints.FoldUnion | store_simple_sled/src/lib.rs:1252-1261 | disjoint sets of entries combine |
| Fingerprints.FoldAnswer | store_simple_sled/src/lib.rs:1247-1264 | combining the items of a query gives the fingerprint of its records |
| RangeSplits.WalkedTimes | store_simple_sled/src/lib.rs:1986-2004 | over a range that excludes no place, the walk over the second tree meets the entries from its start to its end, those at the end included |
| RangeSplits.OpenWalkExactIff | store_simple_sled/src/lib.rs:1986-2004 | without an end in time, the walk meets precisely the entries that are counted, in every store, if and only if the range excludes no place |
| RangeSplits.WalkIsOk | store_simple_sled/src/lib.rs:1974-2021 | for every range, the walk meets its entries once each and by their times, none behind the end of the range, and at least as many before the end as are counted |
| RangeSplits.PartitionRange | store_simple_sled/src/lib.rs:1974-2021 | production starts with the number of entries in the range and the walk over it, for every range |
| RangeSplits.SplitProducer.Produce | store_simple_sled/src/lib.rs:2042-2120 | each call emits the announcement of the next slice that the walk cuts off, with its true size or fingerprint, until the walk is over; it underflows exactly if nothing was counted and something is walked |
| Cuts.CutsBehind | store_simple_sled/src/lib.rs:2042-2120 | the slices up to the last counted entry cover the times of the range, and those cut off behind it repeat parts of the last one; there are any exactly if the walk overruns: the range has no end, and entries come after the last counted one that are many and late enough for another cut |
| Cuts.CoverIsSmall | store_simple_sled/src/lib.rs:2042-2120 | no more slices are cut than were asked for |
| Cuts.SlicesAreEven | store_simple_sled/src/lib.rs:2042-2120 | before the last counted entry, if no two entries share a time, each slice takes precisely one entry more than the target |
| RangeSplits.PartitionIff | store_simple_sled/src/lib.rs:2042-2120 | every time of the range lies in precisely one split if and only if the walk does not overrun |
| RangeSplits.NotOverrun | store_simple_sled/src/lib.rs:2042-2120 | no walk overruns a range that has an end in time or excludes no place |
| RangeSplits.SplitsPartition | store_simple_sled/src/lib.rs:2042-2120 | every time of the range lies in precisely one split, and no split reaches beyond |
| RangeSplits.SplitsConserve | store_simple_sled/src/lib.rs:2042-2120 | sizes add up to the size of the range, and fingerprints combine to its fingerprint |
| RangeSplits.AllSplits | store_simple_sled/src/lib.rs:1330-1340 | for every range with entries, production ends, and its splits partition the times of the range, and conserve its entries in number and in fingerprint, if and only if the walk does not overrun; for a range without entries it fails exactly if the walk meets something |
| EventLog.AdvanceOk | data-model/src/store.rs:682-696 | a new operation keeps every cursor right: an empty cell means that the end was reached, and ids count from the front of the queue |
| EventLog.ConsumeOk | data-model/src/store.rs:768-784 | taking an operation advances a cursor by one and empties the cell exactly at the end |
| EventLog.SawEverythingIff | data-model/src/store.rs:682-704 | an up-to-date subscriber saw precisely the operations queued since it subscribed, once each and in order, if and only if no operation was queued on a full queue while it lagged |
| EventLog.EventSystem.EnqueueOp | data-model/src/store.rs:682-696 | the log grows, and each lagging subscriber loses one operation exactly if the queue was full; the number of popped operations is never raised |
| EventLog.EventSystem.TakeOp | data-model/src/store.rs:699-704 | an id always resolves, so that no subscription is ever ended for lagging |
| EventLog.EventSystem.AddCursor | data-model/src/store.rs:608-628 | a new subscriber starts at the end of the log |
| EventLog.EventSystem.Drop | data-model/src/store.rs:737-743 | dropping a subscriber leaves the others alone |
| EventLog.Subscriber.Produce | data-model/src/store.rs:759-929 | what was emitted and what is buffered are the events of the operations seen, in order; waiting means that all were emitted |
| EventLog.Subscriber.EventsFor | data-model/src/store.rs:786-926 | the branches for one operation give its events, one returned and one buffered |
| EventLog.AddSubscription | data-model/src/store.rs:608-628 | a subscription starts with nothing seen and nothing emitted |
| Alerts.AlertPrecedesIngestion | data-model/src/store.rs:880-905 | for subscriptions that do not ignore incomplete payloads, whatever the log, every ingestion event directly follows the prune alert for its entry |
| Alerts.AlertsFirstIff | data-model/src/store.rs:786-926 | for every subscription and log: every ingestion event comes after an alert for its entry if and only if every entry that is reported only when its payload completes was inserted within the log |
| Alerts.EarlySubscriberAlerted | data-model/src/store.rs:786-926 | who subscribes before the first operation of a store, whose payloads grow only under entries that it holds, is always alerted first |
| Alerts.LateSubscriberNotAlerted | data-model/src/store.rs:800-812 | a subscriber that ignores incomplete payloads, and joins between an insertion and the completion of its payload, hears of the entry without any alert |
| Replay.ReplayOpIff | fuzz/src/store_events.rs:150-241 | for every subscription and every operation that fits the store, on payloads too: its events turn the subscribed part of the state before into that of the state after, if and only if incomplete payloads are not ignored, or the operation completes a payload all at once of an entry that disturbs no subscribed one, or it forgets no subscribed payload |
| Replay.ReplayRebuilds | fuzz/src/store_events.rs:150-241 | from a snapshot of the subscribed part, the events of any log of such operations rebuild the subscribed part of the state the log leads to; if incomplete payloads are not ignored, those of any log |
| Replay.PayloadEventsNamed | data-model/src/store.rs:786-931 | an operation on payloads is reported for its own entry or area, with its own amounts; replaying such an event never removes an entry, and changes at most what is available of it |
| StoreEvents.InsertionReportedIff | data-model/src/store.rs:880-929 | an insertion is alerted about exactly if the entry lies in the range or may prune into it, and reported exactly if it lies there and is not ignored |
| StoreEvents.AreaReportedIff | data-model/src/store.rs:821-862 | a forgotten area, or its forgotten payloads, are reported exactly if its range has an entry in common with the subscribed one, which does not lie within the range of the protected area |
| StoreEvents.RangesMeetIff | data-model/src/grouping/range_3d.rs:139-150 | ranges meet if and only if they have a place and time in common |
| StoreEvents.RangeIncludesRangeIff | data-model/src/grouping/range_3d.rs:90-95 | a range that holds something lies within another one if and only if everything it holds is there as well |
| Replay.ForgetAreaOpsFit | fuzz/src/store.rs:558-620 | what the reference store reports for a forgotten area can be replayed for every area |
| Replay.ForgetAreaPayloadsOpsFit | fuzz/src/store.rs:658-722 | so can what it reports for the forgotten payloads of an area |
| Replay.AppendOpsFit | fuzz/src/store.rs:397-520 | so can what it reports for an appended payload, complete or not, matching or not |
| AreaReports.AreaReportReplaysIff | store_simple_sled/src/lib.rs:838-841 | a report of the area alone, with or without a protected area, as the persistent store makes it, can be replayed in every store and subscription if and only if the area has no time, or the range of the protected area does not reach past it into the area and either nothing fits below the path of the area or the protected area shields all of that |
| AreaSubscriptions.ExactSubscription | fuzz/src/store.rs:803-809 | the subscribed part of a store is its area part if the range of the area is exact, for any choice about empty payloads |
| AreaSubscriptions.AreaReplayIff | fuzz/src/store_events.rs:51-300 | over all logs, what a subscriber to an area collects is what the store holds of the area without what is ignored, if and only if the range made of the area is exact |
| AreaSubscriptions.FullAreaMissed | fuzz/src/store.rs:803-809 | a failing area: a subscriber to the full area never collects an entry at the path of one empty component |
| StoreEventsCheck.CatchUp | fuzz/src/store_events.rs:163-232 | each event is applied to the collected store as it is produced |
| StoreEventsCheck.Rebuilt | fuzz/src/store_events.rs:238-241 | a subscriber that waits and lost nothing has collected exactly the subscribed part of the store |
| StoreEventsCheck.CheckStoreEvents | fuzz/src/store_events.rs:51-241 | for any mutations, those of payloads included, and any interleaving with the subscriber, the collected store ends up as the subscribed part of the store, unless operations were lost, which takes more operations than the queue holds |
| StoreEventsCheck.CheckAreaEvents | fuzz/src/store_events.rs:51-300 | the same up to the final comparison of the unignored entries of the area with everything collected: it succeeds precisely if the collected store is that part of the store, and always if nothing was lost and the range of the area is exact |
| StoreEventsCheck.CheckFromNothing | fuzz/src/store_events.rs:31-300 | the whole check, from two empty stores and a new subscription to an area: it succeeds if the range of the area is exact and the queue holds all operations |
| Guarantees.GuaranteeBoundCell.ApplyBound | lcmux/src/guarantee_bound.rs:18-33 | a bound can be set once and then only tightened |
| Guarantees.GuaranteeBoundCell.UseUp | lcmux/src/guarantee_bound.rs:36-47 | the bound shrinks by what is used, and reports when it is exceeded |
| Guarantees.GuaranteeCell.ApplyBound | lcmux/src/guarantee_cell.rs:44-51 | state and result of a new bound, including the wake-up of a waiter that it makes hopeless |
| Guarantees.GuaranteeCell.AddGuarantees | lcmux/src/guarantee_cell.rs:54-72 | state and result of new credit; a violated bound leaves the increased credit behind |
| Guarantees.GuaranteeCell.BeginAwaitThreshold | lcmux/src/guarantee_cell.rs:82-84 | the first half of waiting |
| Guarantees.GuaranteeCell.FinishAwaitThreshold | lcmux/src/guarantee_cell.rs:84-91 | the second half of waiting spends the credit |
| Guarantees.GuaranteeCell.ReduceGuaranteesDownTo | lcmux/src/guarantee_cell.rs:75-79 | the value becomes the target, whichever is larger |
| Guarantees.ReduceMeaning | lcmux/src/guarantee_cell.rs:74-79 | reducing behaves as documented if and only if the target is not greater than the credit |
| Guarantees.LimitMeaning | lcmux/src/guarantee_bound.rs:18-33 | bounds only tighten; a greater one is refused, and nothing changes |
| Guarantees.GrantMeaning | lcmux/src/guarantee_cell.rs:54-72 | credit is refused exactly where it overflows or exceeds the bound; in the second case it is there all the same, so that credit and bound together have grown |
| Guarantees.WaitContinues | lcmux/src/guarantee_cell.rs:44-72 | a parked waiter has credit < threshold <= credit + bound after every accepted call |
| Guarantees.PotentialShrinks | lcmux/src/guarantee_bound.rs:18-47 | credit and bound together never grow |
| Guarantees.NopeIff | lcmux/src/guarantee_cell.rs:99-119 | a waiter is told that its threshold is out of reach if and only if no accepted sequence of grants and bounds ever reaches it |
| Guarantees.ParkedUntilSettled | lcmux/src/guarantee_cell.rs:99-119 | a parked waiter is notified by exactly the calls that settle the matter |
| Guarantees.GuaranteeCellWithoutBound.AddGuarantees | lcmux/src/guarantee_cell.rs:260-275 | state and result of more credit to give |
| Guarantees.GuaranteeCellWithoutBound.BeginAwaitThreshold | lcmux/src/guarantee_cell.rs:278-280 | waiting for the watermark |
| Guarantees.GuaranteeCellWithoutBound.FinishAwaitThreshold | lcmux/src/guarantee_cell.rs:281-291 | all credit collected so far is given at once |
| Guarantees.GuaranteeCellWithoutBound.MustClear | lcmux/src/guarantee_cell.rs:294-297 | a forced notification whatever the watermark |
| Guarantees.GiverKeepsWaiting | lcmux/src/guarantee_cell.rs:315-334 | whoever waits for the watermark is parked below it and notified from it on |
| Guarantees.GiverNotified | lcmux/src/guarantee_cell.rs:255-334 | a waiting giver is notified exactly when there is enough, or by force, unless it was told that there is no more to give |
| Guarantees.ClearedByGiving | lcmux/src/guarantee_cell.rs:281-297 | what has to be given at once is marked as not cleared, and cleared by nothing but giving all of it |
| FlowControl.StepSafe | lcmux/src/server_logic.rs:156-182 | every step of client and server conserves credit, keeps both waiters right, drops nothing and leaves no counter range |
| FlowControl.RunSafe | lcmux/src/server_logic.rs:43-46 | over every run from the beginning, credit to be given, held, spent, in transit and buffered adds up to the capacity, and no message is dropped |
| ServerSteps.Open | lcmux/src/server_logic.rs:42-58 | a new server is in the first state of the system of steps |
| ServerSteps.SafeNotDropped | lcmux/src/server_logic.rs:156-182 | in a safe state, no message that arrives is dropped, and the state stays safe |
| ServerSteps.Receive | lcmux/src/server_logic.rs:156-254 | the server drops a message exactly where the system of steps does; otherwise, with the bytes there, it buffers the message and is in the state that the steps lead to |
| ServerSteps.TakeOut | lcmux/src/server_logic.rs:439-485 | so it is for bytes that are taken out |
| ServerSteps.StartToGive | lcmux/src/guarantee_cell.rs:278-280 | so it is for the wait for enough credit |
| ServerSteps.Give | lcmux/src/guarantee_cell.rs:281-291 | so it is for giving all credit at once |
| FlowControl.ClientGuaranteesExact | lcmux/src/server_logic.rs:321-325 | what the server believes the client to hold never underflows and is exactly what is not on the server side |
| FlowControl.QuietCredit | lcmux/src/guarantee_cell.rs:278-291 | when nothing is left to do, the client holds at least capacity - watermark + 1 |
| FlowControl.StuckIff | lcmux/src/client_logic.rs:135-141 | exactly the messages longer than capacity - watermark + 1 can get stuck; with a watermark above the capacity all that are not empty; with a watermark of zero the channel never comes to rest, and none |
| FlowControl.StepProgress | lcmux/src/server_logic.rs:377-382 | every step except a new request reduces the work left |
| FlowControl.RunsEnd | lcmux/src/client_logic.rs:135-171 | under any scheduling, all work is done after a bounded number of steps |
| ServerLogic.ServerState.ReceiveSendToChannel | lcmux/src/server_logic.rs:156-254 | a message is buffered byte for byte if there is room and the client bound and the limit on receiving allow it, dropped, discarded or rejected if not; and it keeps the accounts in order if and only if the client had the credit |
| ServerLogic.ServerState.KeepToLimit | lcmux/src/server_logic.rs:201-213 | the limit on receiving counts down to zero; reaching it closes the channel |
| ServerLogic.ServerState.BufferProducerData | lcmux/src/server_logic.rs:217-251 | the loop moves exactly the announced bytes into the buffer, or reports the end of the input |
| ServerLogic.ServerState.DropProducerData | lcmux/src/server_logic.rs:327-362 | the loop skips exactly the announced bytes |
| ServerLogic.ServerState.TakeReceived | lcmux/src/server_logic.rs:439-485 | bytes leave the buffer in order, and as much credit becomes available |
| ServerLogic.ServerState.ReceiveAbsolve | lcmux/src/server_logic.rs:258-275 | accepted exactly if the client held that much and its bound allows it |
| ServerLogic.ServerState.ReceiveLimitSending | lcmux/src/server_logic.rs:280-291 | bounds can only tighten; a bound of zero closes the channel |
| ServerLogic.ServerState.ReceiveApologise | lcmux/src/server_logic.rs:296-318 | accepted exactly for a drop that was announced |
| EncryptedStream.IncrementNonce | transport_encryption/src/encryption.rs:643-661 | the nonce counts up in big-endian order, and reports the wrap-around |
| EncryptedStream.NoncesDiffer | transport_encryption/src/encryption.rs:643-661 | no two calls use the same nonce |
| EncryptedStream.StreamIsSealings | transport_encryption/src/encryption.rs:112-232 | a stream is the encryptions of, for each chunk, its length in two bytes and the chunk, and in the end a length of zero |
| EncryptedStream.NoncesOfStreamDiffer | transport_encryption/src/encryption.rs:643-661 | no two encryptions of a stream use the same nonce, as long as the nonces last |
| EncryptedStream.FramesFromNothing | transport_encryption/src/encryption.rs:164-178 | bytes that come one by one fill chunks of 4096 bytes |
| EncryptedStream.Encryptor.SendHeader | transport_encryption/src/encryption.rs:112-133 | an encrypted length under the next nonce |
| EncryptedStream.Encryptor.Flush | transport_encryption/src/encryption.rs:211-232 | the buffered bytes become one more frame; nothing that was consumed is lost |
| EncryptedStream.Encryptor.Consume | transport_encryption/src/encryption.rs:164-178 | one more byte is consumed |
| EncryptedStream.Encryptor.BulkConsume | transport_encryption/src/encryption.rs:257-276 | as many bytes as there are free slots are consumed |
| EncryptedStream.Encryptor.Close | transport_encryption/src/encryption.rs:180-186 | the wire holds the frames of exactly the consumed bytes, and the closing header; it fails exactly if the nonces do not last for that |
| DecryptedStream.Decryptor.ReadChunk | transport_encryption/src/encryption.rs:410-458 | one chunk is read and decrypted under the next two nonces, or the error of the first thing that is wrong |
| DecryptedStream.Decryptor.FillBuffer | transport_encryption/src/encryption.rs:405-463 | filling the buffer does not change what is still to come |
| DecryptedStream.Decryptor.Produce | transport_encryption/src/encryption.rs:494-541 | on any wire, the next byte of its meaning, or its end |
| DecryptedStream.Decryptor.Slurp | transport_encryption/src/encryption.rs:566-571 | slurping does not change what is still to come |
| DecryptedStream.StreamArrives | transport_encryption/src/encryption.rs:405-463 | a closed stream decodes to all its bytes and the final value; with its end cut off anywhere, to a beginning of them and an error |
| DecryptedStream.ProducedWasSent | transport_encryption/src/encryption.rs:405-541 | if nothing is decrypted but what was encrypted: on any wire, what is produced are the bytes of chunks whose frames arrived in this order |
| DecryptedStream.AcceptedIff | transport_encryption/src/encryption.rs:405-541 | then a wire is understood to its end if and only if it is precisely a closed stream, under nonces that last, and the inner producer ends properly |
| DecryptedStream.TrailingBytesRefused | transport_encryption/src/encryption.rs:494-520 | bytes behind a closed stream are an error, after all that was sent was produced |
| DecryptedStream.OversizedHeaderRefused | transport_encryption/src/encryption.rs:427-433 | so is a header that announces more than 4096 bytes |
| DecryptedStream.Transmit | transport_encryption/src/encryption.rs:164-186 | for any calls on the sending side and any cut of the wire, the receiver gets all bytes and the final value, or a beginning and an error; sending fails exactly if the calls need more frames than there are pairs of nonces, and one nonce for the end |
| Handshake.State.IniWriteFirstMessage | transport_encryption/src/handshake.rs:231-245 | message and transcript hash |
| Handshake.State.ResReadFirstMessage | transport_encryption/src/handshake.rs:248-267 | accepted exactly if a key can be decoded; new remote key and hash |
| Handshake.State.ResWriteSecondMessage | transport_encryption/src/handshake.rs:270-310 | message, hash, chaining key and encryption key after e, ee, s, es |
| Handshake.State.IniReadSecondMessage | transport_encryption/src/handshake.rs:313-357 | accepted if both keys can be recovered; the state after e, ee, s, es |
| Handshake.State.IniWriteThirdMessage | transport_encryption/src/handshake.rs:360-391 | message, hash and chaining key after s, se |
| Handshake.State.ResReadThirdMessage | transport_encryption/src/handshake.rs:394-425 | accepted exactly if the static key can be recovered; hash and chaining key |
| Handshake.SecondMessage | transport_encryption/src/handshake.rs:270-357 | after the second message both sides share hash, chaining key and encryption key, and the initiator knows the static key of the responder |
| Handshake.ThirdMessage | transport_encryption/src/handshake.rs:360-425 | after the third message the responder knows the static key of the initiator |
| Handshake.RunHandshake | transport_encryption/src/handshake.rs:25-136 | over an honest channel both parties end with the same hash, each with the static key of the other, and each encrypts with what the other decrypts with; messages and keys are those that the pattern XX prescribes, step by step |
| Handshake.HashIdentifies | transport_encryption/src/handshake.rs:455-461 | under an injective hash of one width, handshakes that end with the same hash had the same protocol name and prologue, and exchanged the same three messages |
| Handshake.KeysIdentify | transport_encryption/src/handshake.rs:463-483 | if key derivation is injective too, handshakes that end with the same key for the initiator to encrypt with had the same protocol name, and shared the same three keys |
| Handshake.SealedKeyReadIff | transport_encryption/src/handshake.rs:485-564 | a sealed key is read correctly if and only if the tag is appended, or the tag followed by the encoded key happens to begin with the encoded key |
| Handshake.PrependedTagMisread | transport_encryption/src/handshake.rs:485-564 | with a tag in front, a key whose encoding does not begin as the tag does is never read |
| PathEncodings.CompactRoundTrip | data-model/src/path/codec.rs:459-476 | compact integers with a tag of any width decode to themselves, whatever follows |
| PathEncodings.CompactMeaning | data-model/src/path/codec.rs:459-476 | tag and bytes of every number: small ones are the tag itself, all others the fewest bytes of 1, 2, 4 and 8 that hold them, with the greatest digit first |
| PathEncodings.DecodedFromAnyWidth | data-model/src/path/codec.rs:459-497 | each announcing tag is decoded from its bytes, also where fewer would do, and refused exactly where bytes are missing |
| PathEncodings.PathRoundTrip | data-model/src/path/codec.rs:63-72 | paths decode to themselves, whatever follows |
| PathEncodings.ExtensionRoundTrip | data-model/src/path/codec.rs:499-569 | paths that extend a known path decode to themselves |
| PathEncodings.RelativePathRoundTrip | data-model/src/path/codec.rs:284-307 | paths decode to themselves relative to any reference path |
| PathEncodings.DecodedRelativePathValid | data-model/src/path/codec.rs:312-408 | whatever is decoded relative to a valid path is a valid path |
| PathEncodings.EncodedExamples | data-model/src/path/codec.rs:63-72 | some paths byte by byte |
| PrivateEncodings.PrivatePathRoundTrip | pio/src/path.rs:61-132 | encoding succeeds exactly on paths that extend the reference and are related to the private path, and decoding inverts it |
| PrivateEncodings.HeaderFields | pio/src/area.rs:258-327 | the decoder finds in the header what the encoder put there |
| PrivateEncodings.PrivateAreaRoundTripIff | pio/src/area.rs:222-457 | an area that its context almost includes survives encoding and decoding, without failing arithmetic, if and only if its times do not end before they start |
| PrivateEncodings.PrivateAreaEncodedIff | pio/src/area.rs:222-327 | an area is encoded if and only if it lies within the reference and meets the interest, subspaces aside that are not given, and neither of its times lies beyond the other end of the reference |
| PrivateEncodings.DecodedPrivatePathValid | pio/src/path.rs:101-132 | whatever is decoded is a valid path, which extends the reference, or is related to the private path |
| PrivateEncodings.DecodedPathExtendsIff | pio/src/path.rs:119-132 | of a private path beyond the reference, a decoded path keeps the reference exactly if the number in front says so; nothing else is checked |
| PrivateEncodings.DecodedPrivateAreaValid | pio/src/area.rs:364-457 | a decoded area is valid and does not end before it starts |
| PrivateEncodings.EncodedPrivateExamples | pio/src/area.rs:222-327 | a path and some areas byte by byte |
| Capabilities.CommunalCapability.constructor | meadowcap/src/communal_capability.rs:71-86 | a new capability has no delegations |
| Capabilities.CommunalCapability.Delegate | meadowcap/src/communal_capability.rs:90-138 | succeeds exactly if the area is included and the secret belongs to the receiver; the new chain is valid |
| Capabilities.CommunalCapability.AppendExistingDelegation | meadowcap/src/communal_capability.rs:141-177 | succeeds exactly for a valid delegation; the chain stays valid |
| Capabilities.ChainIsNested | meadowcap/src/communal_capability.rs:90-177 | all areas of a valid chain are nested and lie in the subspace of the first user |
| Capabilities.ValidCapIff | meadowcap/src/communal_capability.rs:90-177 | a chain is valid exactly if its namespace is communal, and every delegation lies within the area before and was signed by the user before, together with everything up to there |
| Capabilities.LongestCommonDelegationPrefixLength | meadowcap/src/communal_capability.rs:266-281 | the loop finds the length of the longest common prefix |
| Capabilities.ChainRoundTrip | meadowcap/src/communal_capability.rs:376-403 | decoding what follows a prefix of a valid chain recovers the whole chain |
| Capabilities.SharedRebuilds | meadowcap/src/communal_capability.rs:487-497 | taking over the shared delegations rebuilds the beginning of the chain |
| Capabilities.CapRoundTrip | meadowcap/src/communal_capability.rs:312-547 | a valid write capability encoded relative to any prior write capability and an entry it authorises decodes to itself, whatever prefix is shared |
| Capabilities.RelativeEncode | meadowcap/src/communal_capability.rs:312-407 | the encoding loop writes exactly the encoding, and refuses what must not be encoded |
| Capabilities.RelativeDecode | meadowcap/src/communal_capability.rs:442-547 | the decoding loops rebuild the capability, checking every delegation |
| Capabilities.DecodedCapValid | meadowcap/src/communal_capability.rs:442-547 | whatever is decoded is a valid capability to write to the namespace of the entry, issued to the owner of its subspace |
| Capabilities.HighestBitRefused | meadowcap/src/communal_capability.rs:460-464 | the highest bit of the first byte is never set |
| Capabilities.EncodedNumbersExamples | meadowcap/src/communal_capability.rs:340-372 | the numbers in front of the delegations byte by byte |
| Drops.ItemRoundTrip | sideload/src/lib.rs:196-325 | an entry and its payload survive whatever precedes them, without overflow or underflow of timestamps |
| Drops.DropRoundTripIff | sideload/src/lib.rs:172-477 | decoding recovers exactly the entries and payloads that were put into a drop if and only if the number announced is their number |
| Drops.DecodedItemValid | sideload/src/lib.rs:352-436 | whatever item is decoded is valid, authorised, and of the namespace, with a payload as long as the entry says |
| Drops.PayloadAsAnnounced | sideload/src/lib.rs:420-472 | it has its payload exactly if the header says so: one that is cut short is refused |
| Drops.DecodedDropValid | sideload/src/lib.rs:349-477 | a drop that decodes is one of the namespace and holds as many valid items as it announces |
| Drops.EncodedItemExample | sideload/src/lib.rs:196-325 | an item byte by byte |
| StoreDrops.PayloadsTravelWhole | sideload/src/lib.rs:196-325 | each listed entry comes with its payload if all of it is there, be it empty, and without any of it otherwise |
| DropIngestion.IngestDrop | sideload/src/lib.rs:349-477 | the loop decodes every entry against the one before it, ingests it and appends its payload; it succeeds exactly if the drop decodes and every item is acceptable after the items before it, and then the store is the one that the list describes |
| DropIngestion.DropIngestedIff | sideload/src/lib.rs:438-472 | for every list of items and every store: all are ingested if and only if each one that comes with its payload either is obsolete neither by what the store held first nor by an item before it, and matches its digest, or is obsolete and taken by what is held at its place; and then the store holds precisely what the list says |
| DropIngestion.EmptyStoreIngestsIff | sideload/src/lib.rs:438-472 | into an empty store, as long as an item and an earlier one at the same place that prunes it differ in digest: a list is ingested if and only if no item that comes with its payload follows one that prunes it, and all payloads match |
| DropIngestion.SameDigestIngested | sideload/src/lib.rs:438-472 | where they do not differ, an obsolete item can be ingested: its payload goes to the newer entry |
| DropIngestion.HeldIsFound | sideload/src/lib.rs:438-472 | an item that was not obsolete when it came, and that no later one dominates, is what is held at its place, with all that was brought there since |
| DropIngestion.FoundIsHeld | sideload/src/lib.rs:438-472 | whatever is held is such an item, or a record of the first store that no item replaced |
| DropIngestion.DropConverges | sideload/src/lib.rs:438-472 | an empty store that ingested a drop holds the entries that no other entry of the drop prunes, in whatever order they are listed |
| DropIngestion.CoexistingIngestedIff | sideload/src/lib.rs:438-472 | entries that do not obsolete each other are all ingested into an empty store if and only if their payloads match their digests, and then the store holds precisely them |
| DropIngestion.UnblockedItemIff | sideload/src/lib.rs:438-472 | an entry that nothing makes obsolete is refused exactly if its payload does not match its digest |
| DropIngestion.ObsoleteItemIff | sideload/src/lib.rs:438-472 | an obsolete entry that comes with its payload is refused, each time with its own error, unless another entry is held at its place that names the same digest, has nothing of its payload yet, and has room for this one |
| DropIngestion.OrderDecides | sideload/src/lib.rs:438-472 | an entry listed before the one that prunes it is ingested; listed after it, the drop is refused |
| StoreDrops.CreateDrop | sideload/src/lib.rs:139-327 | the loops count every area, write the count, the namespace, and what every area lists, each entry against the one before it; nothing is made exactly if nothing is counted; the drop decodes to what was listed if and only if as much was listed as counted, and always if the ranges of all areas are exact |
| StoreDrops.ExactAreasDeliver | sideload/src/lib.rs:139-327 | from every store, in whatever order its queries answer, a drop of areas whose ranges are exact delivers every listed entry |
| StoreDrops.AreasDropIff | sideload/src/lib.rs:139-327 | a drop of some areas delivers what they list, from every store and in every order, or there is nothing to deliver and no drop, if and only if the ranges made of all of the areas are exact; errors of several areas cancel in some stores, and never in all |
| AreaTallies.TalliesDisagree | sideload/src/lib.rs:139-171 | as soon as one of some areas has a range that is not exact, there is a subspace, a path and a time that are in more of the areas than of the ranges, or the other way around |
| StoreDrops.FullAreaDropFails | sideload/src/lib.rs:139-327 | a failing area and store: of the full area, an entry at the path of one empty component is counted and not listed, and the drop cannot be decoded |
| Sideloading.DropArrives | sideload/src/lib.rs:139-477 | ingesting what areas with exact ranges list leaves an empty store with precisely the entries of the areas, and with every payload that the first store had all of, whatever that store holds |
| Sideloading.ListArrives | sideload/src/lib.rs:139-477 | for any areas: if none of the listed entries makes another one obsolete, an empty store ends up with precisely the listed entries |
| Sideloading.IngestionSettles | fuzz/src/store.rs:341-395 | no entry of a store makes another one obsolete after any ingestions without unpruned ties |
| Sideloading.Sideload | sideload/src/lib.rs:139-477 | creating a drop of such areas and ingesting it: the drop arrives with nothing left over, and the second store holds precisely the entries of the areas |

## Left out

- Asynchrony: each stretch of code between two awaits is one step; queues and cells of external crates are sequences and optional values.
- The sled database itself: a tree is a map walked in byte order, a transaction is one assignment, flushing and disk errors do not occur.
- Payload bytes in both stores: payloads are stored under one key and removed under another (store_simple_sled/src/lib.rs:463, 396, 738, 818), so that the stores can disagree on them.
- `SledStores.SledStore.SetLocalLength`: models the effect of appending to and forgetting a payload on the two entry trees only; the number of bytes is a parameter.
- `forget_area_payloads`: it writes a key of the first tree into the second tree and queues the wrong operation (store_simple_sled/src/lib.rs:984, 1009-1011).
- `SledStores.SledStore.QueryRange`: answers on one state of the tree; a sled iterator may see changes made while it runs.
- `RangeSplits.SplitProducer.Produce`: models runs during which the store does not change.
- `Replay.ReplayOpIff`: a payload event is replayed with as many bytes as it announces, since bytes are not kept; bytes that an append of too many, exposed in several pieces, leaves behind are not reported by the store, and such a change is not among the operations.
- `Replay.ReplayRebuilds`: the same; subscriptions that ignore incomplete payloads are covered for logs of operations that `Replay.ReplayOpIff` admits.
- `AreaSubscriptions.AreaReplayIff`: subscriptions that ignore incomplete payloads are excluded, because their events do not replay in all logs.
- `StoreEventsCheck.CheckStoreEvents`: subscriptions that ignore incomplete payloads are excluded, because their events do not replay in all runs (`Replay.ReplayOpIff`).
- `StoreEventsCheck.CheckAreaEvents`: the same restriction.
- `StoreEquality.CheckOp`: operations on payloads are not among those compared.
- `StoreEquality.CheckStoreEquality`: operations on payloads do not occur in the run.
- `ControlStores.ControlStore.AppendPayload`: the one call that drops make, which expects that nothing is there yet; bytes are not kept, and the event is not queued.
- `ControlStores.ControlStore.AppendSlice`: bytes are not kept, so that whether the whole payload has the digest of the entry is a parameter; the source exposes all bytes at once and does not fail, as in the fuzz targets.
- `ControlStores.ControlStore.ForgetPayload`: models how much is available, not the bytes.
- `EventLog.EventSystem.EnqueueOp`: a queue capacity of zero, which would underflow, is excluded; cancelling all subscriptions for debugging is not modelled.
- `ServerLogic.ServerState.KeepToLimit`: nothing in the code ever sets a limit on receiving (lcmux/src/server_logic.rs:53), so that its branch never runs.
- `FlowControl.RunSafe`: pleas, absolutions, limits and apologies do not occur in the joint system; with a watermark of zero the server gives zero bytes over and over, and that case is excluded from progress.
- Session wiring (`wgps/src/lib.rs`, `lcmux/src/session.rs`, `storedinator.rs`) and frame headers (`lcmux/src/frames.rs`): joins of the parts modelled here, or one more simple codec.
- `Handshake.RunHandshake`: key derivation is an arbitrary function, so that HMAC (section 2 of RFC 2104) is not spelled out; ciphers append their tag, because with a tag in front the received key is decoded from the wrong place (transport_encryption/src/handshake.rs:561, `Handshake.PrependedTagMisread`); nothing is said about tampering.
- `EncryptedStream.Encryptor.Flush`: after an error an encryptor is not used again; errors of the inner consumer do not occur.
- Owned capabilities relative to a prior one: their encoder skips shared delegations even where it says that none are shared (meadowcap/src/owned_capability.rs:456-474, 493-496).
- `Capabilities.RelativeDecode`: decoding errors are not told apart; the bytes that a delegation signs are an arbitrary function of the capability, the area and the user.
- `PathEncodings.PathRoundTrip`: rejection of encodings that are not canonic is not modelled; compact_u64 is not part of this model and follows the specification of compact integers.
- `DropIngestion.IngestDrop`: decoding errors are not told apart; a drop that ends inside the last payload is refused here, as by producers that report such an end as an error; the encryption around a drop is left out.
- `StoreDrops.CreateDrop`: payloads are read from the store by an arbitrary function, and nothing changes while the drop is made.
- Predicates of `PrivateInterest` on pairs of interests (pio/src/area.rs:57-88): one-branch predicates that differ from their comments.
- Display code, generators of arbitrary values, fuzz targets and placeholder parameters.
