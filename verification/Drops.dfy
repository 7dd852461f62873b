/** Sideloading: a drop is a number of entries, each encoded against the one before it. */
module Drops {
  import opened Wrappers
  import opened ByteStrings
  import opened Paths
  import opened Grouping
  import opened Entries
  import opened KeyCodec
  import opened PathEncodings
  import opened PrivateEncodings

  /** The parameters of the format, known by what they compute. */
  datatype Format = Format(
    lim: Limits, width: nat,
    encodeNamespace: NamespaceId -> seq<byte>,
    decodeNamespace: seq<byte> -> Decoded<NamespaceId>,
    encodeDigest: nat -> seq<byte>,
    decodeDigest: seq<byte> -> Decoded<nat>,
    encodeToken: (Token, AuthorisedEntry, Entry) -> seq<byte>,
    decodeToken: (AuthorisedEntry, Entry, seq<byte>) -> Decoded<Token>,
    isAuthorised: (Entry, Token) -> bool)

  ghost predicate LawfulFormat(f: Format) {
    && SmallLimits(f.lim)
    && (forall n, rest :: f.decodeNamespace(f.encodeNamespace(n) + rest) == Some((n, rest)))
    && (forall d: nat, rest :: f.decodeDigest(f.encodeDigest(d) + rest) == Some((d, rest)))
    && (forall t, prev, e, rest :: f.decodeToken(prev, e, f.encodeToken(t, prev, e) + rest) == Some((t, rest)))
  }

  /** An entry, with its payload if the store has all of it. */
  datatype Item = Item(entry: AuthorisedEntry, payload: Option<seq<byte>>)

  predicate ValidItem(f: Format, ns: NamespaceId, item: Item) {
    var e := item.entry.entry;
    ValidEntry(f.lim, f.width, e) && f.isAuthorised(e, item.entry.token) && ProperItem(ns, item)
  }

  /** What every decoded item satisfies: a payload that came along is as long as the entry says. */
  predicate ProperItem(ns: NamespaceId, item: Item) {
    item.entry.entry.namespaceId == ns && (item.payload.Some? ==> |item.payload.value| == item.entry.entry.payloadLength)
  }

  function PayloadOf(item: Item): seq<byte> {
    if item.payload.Some? then item.payload.value else []
  }

  // ---------------------------------------------------------------- one item

  function TimeDistance(t: nat, prev: nat): nat {
    if t > prev then t - prev else prev - t
  }

  function ItemHeader(item: Item, prev: Entry): byte {
    var e := item.entry.entry;
    HeaderByte(item.payload.Some?, e.subspace != prev.subspace, e.timestamp > prev.timestamp, false,
      MinTag(TimeDistance(e.timestamp, prev.timestamp), 2), MinTag(e.payloadLength, 2))
  }

  function EncodeChangedSubspace(e: Entry, prev: Entry): seq<byte> {
    if e.subspace != prev.subspace then e.subspace else []
  }

  /** Where the entry is. */
  function EncodePlace(e: Entry, prev: Entry): seq<byte> {
    EncodeChangedSubspace(e, prev) + EncodeRelativePath(e.path, prev.path)
  }

  /** When it was made, and of what. */
  function EncodeContent(f: Format, e: Entry, prev: Entry): seq<byte> {
    EncodeCompact(TimeDistance(e.timestamp, prev.timestamp), 2) + (EncodeCompact(e.payloadLength, 2) + f.encodeDigest(e.digest))
  }

  function EncodeItem(f: Format, prev: AuthorisedEntry, item: Item): seq<byte> {
    var e := item.entry.entry;
    [ItemHeader(item, prev.entry)] + (EncodePlace(e, prev.entry) + (EncodeContent(f, e, prev.entry)
    + (f.encodeToken(item.entry.token, prev, e) + PayloadOf(item))))
  }

  function DecodeChangedSubspace(f: Format, isEncoded: bool, prev: Entry, input: seq<byte>): Decoded<SubspaceId> {
    if !isEncoded then Some((prev.subspace, input))
    else if |input| < f.width then None
    else Some((input[..f.width], input[f.width..]))
  }

  /** `None` where the checked arithmetic fails. */
  function DecodeTime(tag: nat, add: bool, prev: Entry, input: seq<byte>): Decoded<nat> {
    var diff := DecodeCompact(tag, 2, input);
    if diff.None? then None
    else if add then (if prev.timestamp + diff.value.0 >= U64_LIMIT then None else Some((prev.timestamp + diff.value.0, diff.value.1)))
    else if prev.timestamp < diff.value.0 then None
    else Some((prev.timestamp - diff.value.0, diff.value.1))
  }

  function DecodePlace(f: Format, prev: Entry, header: byte, input: seq<byte>): Decoded<(SubspaceId, Path)> {
    var subspace := DecodeChangedSubspace(f, header / 64 % 2 == 1, prev, input);
    if subspace.None? then None
    else
      var path := DecodeRelativePath(f.lim, prev.path, subspace.value.1);
      if path.None? then None else Some(((subspace.value.0, path.value.0), path.value.1))
  }

  /** Timestamp, payload length and digest. */
  function DecodeContent(f: Format, prev: Entry, header: byte, input: seq<byte>): Decoded<(nat, nat, nat)> {
    var time := DecodeTime(header / 4 % 4, header / 32 % 2 == 1, prev, input);
    if time.None? then None
    else
      var length := DecodeCompact(header % 4, 2, time.value.1);
      if length.None? then None
      else
        var digest := f.decodeDigest(length.value.1);
        if digest.None? then None else Some(((time.value.0, length.value.0, digest.value.0), digest.value.1))
  }

  function DecodeItem(f: Format, ns: NamespaceId, prev: AuthorisedEntry, input: seq<byte>): Decoded<Item> {
    if input == [] then None
    else
      var place := DecodePlace(f, prev.entry, input[0], input[1..]);
      if place.None? then None
      else
        var content := DecodeContent(f, prev.entry, input[0], place.value.1);
        if content.None? then None
        else
          var (t, n, d) := content.value.0;
          var e := Entry(ns, place.value.0.0, place.value.0.1, t, n, d);
          var token := f.decodeToken(prev, e, content.value.1);
          if token.None? || !f.isAuthorised(e, token.value.0) then None
          else DecodePayload(AuthorisedEntry(e, token.value.0), input[0] / 128 % 2 == 1, token.value.1)
  }

  function DecodePayload(entry: AuthorisedEntry, isEncoded: bool, input: seq<byte>): (r: Decoded<Item>)
    ensures r.Some? ==> (r.value.0.payload.Some? <==> isEncoded)
  {
    var n := entry.entry.payloadLength;
    if !isEncoded then Some((Item(entry, None), input))
    else if |input| < n then None
    else Some((Item(entry, Some(input[..n])), input[n..]))
  }

  /** What the decoder finds in the header. */
  lemma HeaderTells(item: Item, prev: Entry)
    ensures var h, e := ItemHeader(item, prev), item.entry.entry;
      && (h / 128 % 2 == 1 <==> item.payload.Some?) && (h / 64 % 2 == 1 <==> e.subspace != prev.subspace)
      && (h / 32 % 2 == 1 <==> e.timestamp > prev.timestamp)
      && h / 4 % 4 == MinTag(TimeDistance(e.timestamp, prev.timestamp), 2) && h % 4 == MinTag(e.payloadLength, 2)
  {
    var e := item.entry.entry;
    HeaderBits(item.payload.Some?, e.subspace != prev.subspace, e.timestamp > prev.timestamp, false,
      MinTag(TimeDistance(e.timestamp, prev.timestamp), 2), MinTag(e.payloadLength, 2));
  }

  lemma PlaceRoundTrip(f: Format, e: Entry, prev: Entry, h: byte, rest: seq<byte>)
    requires SmallLimits(f.lim) && ValidEntry(f.lim, f.width, e) && (h / 64 % 2 == 1 <==> e.subspace != prev.subspace)
    ensures DecodePlace(f, prev, h, EncodePlace(e, prev) + rest) == Some(((e.subspace, e.path), rest))
  {
    var subspace, path := EncodeChangedSubspace(e, prev), EncodeRelativePath(e.path, prev.path);
    Regroup(subspace, path, rest);
    PathEncodings.Split(subspace, path + rest);
    assert subspace == [] ==> subspace + (path + rest) == path + rest;
    RelativePathRoundTrip(f.lim, e.path, prev.path, rest);
  }

  lemma TimeRoundTrip(e: Entry, prev: Entry, tag: nat, add: bool, rest: seq<byte>)
    requires e.timestamp < U64_LIMIT && prev.timestamp < U64_LIMIT
    requires tag == MinTag(TimeDistance(e.timestamp, prev.timestamp), 2) && (add <==> e.timestamp > prev.timestamp)
    ensures DecodeTime(tag, add, prev, EncodeCompact(TimeDistance(e.timestamp, prev.timestamp), 2) + rest) == Some((e.timestamp, rest))
  {
    CompactRoundTrip(TimeDistance(e.timestamp, prev.timestamp), 2, rest);
  }

  lemma ContentRoundTrip(f: Format, e: Entry, prev: Entry, h: byte, rest: seq<byte>)
    requires LawfulFormat(f) && ValidEntry(f.lim, f.width, e) && prev.timestamp < U64_LIMIT
    requires h / 32 % 2 == 1 <==> e.timestamp > prev.timestamp
    requires h / 4 % 4 == MinTag(TimeDistance(e.timestamp, prev.timestamp), 2) && h % 4 == MinTag(e.payloadLength, 2)
    ensures DecodeContent(f, prev, h, EncodeContent(f, e, prev) + rest) == Some(((e.timestamp, e.payloadLength, e.digest), rest))
  {
    var time := EncodeCompact(TimeDistance(e.timestamp, prev.timestamp), 2);
    var length, digest := EncodeCompact(e.payloadLength, 2), f.encodeDigest(e.digest);
    Regroup(time, length + digest, rest);
    Regroup(length, digest, rest);
    TimeRoundTrip(e, prev, h / 4 % 4, h / 32 % 2 == 1, length + (digest + rest));
    CompactRoundTrip(e.payloadLength, 2, digest + rest);
  }

  /** An item survives whatever precedes it, as long as both sides agree on that. */
  lemma ItemRoundTrip(f: Format, ns: NamespaceId, prev: AuthorisedEntry, item: Item, rest: seq<byte>)
    requires LawfulFormat(f) && ValidItem(f, ns, item) && prev.entry.timestamp < U64_LIMIT
    ensures DecodeItem(f, ns, prev, EncodeItem(f, prev, item) + rest) == Some((item, rest))
  {
    var e, p := item.entry.entry, prev.entry;
    var h, place, content := ItemHeader(item, p), EncodePlace(e, p), EncodeContent(f, e, p);
    var token, payload := f.encodeToken(item.entry.token, prev, e), PayloadOf(item);
    Regroup([h], place + (content + (token + payload)), rest);
    Regroup(place, content + (token + payload), rest);
    Regroup(content, token + payload, rest);
    Regroup(token, payload, rest);
    PathEncodings.Split([h], place + (content + (token + (payload + rest))));
    HeaderTells(item, p);
    PlaceRoundTrip(f, e, p, h, content + (token + (payload + rest)));
    ContentRoundTrip(f, e, p, h, token + (payload + rest));
    PathEncodings.Split(payload, rest);
    assert payload == [] ==> payload + rest == rest;
  }

  /** Whatever decodes is a valid item: authorised, of the namespace, within all limits, and with a payload
      of the announced length if with any. */
  lemma DecodedItemValid(f: Format, ns: NamespaceId, prev: AuthorisedEntry, input: seq<byte>)
    requires ValidEntry(f.lim, f.width, prev.entry) && DecodeItem(f, ns, prev, input).Some?
    ensures ValidItem(f, ns, DecodeItem(f, ns, prev, input).value.0)
  {
    var place := DecodePlace(f, prev.entry, input[0], input[1..]);
    DecodedPlaceValid(f, prev.entry, input[0], input[1..]);
    DecodedContentFits(f, prev.entry, input[0], place.value.1);
  }

  /** A payload comes along exactly if the header says so: one that is cut short is refused. */
  lemma PayloadAsAnnounced(f: Format, ns: NamespaceId, prev: AuthorisedEntry, input: seq<byte>)
    requires DecodeItem(f, ns, prev, input).Some?
    ensures DecodeItem(f, ns, prev, input).value.0.payload.Some? <==> input[0] >= 128
  {
    HighestBit(input[0]);
  }

  lemma HighestBit(b: byte)
    ensures b / 128 % 2 == 1 <==> b >= 128
  {}

  lemma DecodedPlaceValid(f: Format, prev: Entry, h: byte, input: seq<byte>)
    requires ValidEntry(f.lim, f.width, prev) && DecodePlace(f, prev, h, input).Some?
    ensures var (s, p) := DecodePlace(f, prev, h, input).value.0;
      ValidSubspace(f.width, s) && ValidPath(f.lim, p)
  {
    var subspace := DecodeChangedSubspace(f, h / 64 % 2 == 1, prev, input).value;
    DecodedRelativePathValid(f.lim, prev.path, subspace.1);
  }

  lemma DecodedContentFits(f: Format, prev: Entry, h: byte, input: seq<byte>)
    requires prev.timestamp < U64_LIMIT && DecodeContent(f, prev, h, input).Some?
    ensures var (t, n, d) := DecodeContent(f, prev, h, input).value.0;
      t < U64_LIMIT && n < U64_LIMIT
  {
    var time := DecodeTime(h / 4 % 4, h / 32 % 2 == 1, prev, input).value;
    DecodedCompactFits(h % 4, 2, time.1);
  }

  // ---------------------------------------------------------------- whole drops

  /** How single items are encoded and decoded against the entry before them. */
  datatype Coder = Coder(
    encode: (AuthorisedEntry, Item) -> seq<byte>,
    decode: (AuthorisedEntry, seq<byte>) -> Decoded<Item>)

  function CoderFor(f: Format, ns: NamespaceId): Coder {
    Coder((prev, item) => EncodeItem(f, prev, item), (prev, input) => DecodeItem(f, ns, prev, input))
  }

  function EncodeItems(k: Coder, prev: AuthorisedEntry, items: seq<Item>): seq<byte>
    decreases |items|
  {
    if items == [] then [] else k.encode(prev, items[0]) + EncodeItems(k, items[0].entry, items[1..])
  }

  function DecodeItems(k: Coder, prev: AuthorisedEntry, n: nat, input: seq<byte>): Decoded<seq<Item>>
    decreases n
  {
    if n == 0 then Some(([], input))
    else
      var first := k.decode(prev, input);
      if first.None? then None
      else
        var more := DecodeItems(k, first.value.0.entry, n - 1, first.value.1);
        if more.None? then None else Some(([first.value.0] + more.value.0, more.value.1))
  }

  predicate ValidItems(f: Format, ns: NamespaceId, items: seq<Item>) {
    forall i | 0 <= i < |items| :: ValidItem(f, ns, items[i])
  }

  ghost predicate LawfulCoder(k: Coder, f: Format, ns: NamespaceId) {
    forall prev: AuthorisedEntry, item: Item | prev.entry.timestamp < U64_LIMIT && ValidItem(f, ns, item) :: Survives(k, prev, item)
  }

  ghost predicate Survives(k: Coder, prev: AuthorisedEntry, item: Item) {
    forall rest :: k.decode(prev, k.encode(prev, item) + rest) == Some((item, rest))
  }

  lemma CoderForLawful(f: Format, ns: NamespaceId)
    requires LawfulFormat(f)
    ensures LawfulCoder(CoderFor(f, ns), f, ns)
  {
    var k := CoderFor(f, ns);
    forall prev: AuthorisedEntry, item: Item | prev.entry.timestamp < U64_LIMIT && ValidItem(f, ns, item)
      ensures Survives(k, prev, item)
    {
      forall rest ensures k.decode(prev, k.encode(prev, item) + rest) == Some((item, rest)) {
        ItemRoundTrip(f, ns, prev, item, rest);
      }
    }
  }

  lemma {:induction false} ItemsRoundTrip(k: Coder, f: Format, ns: NamespaceId, prev: AuthorisedEntry, items: seq<Item>, rest: seq<byte>)
    requires LawfulCoder(k, f, ns) && ValidItems(f, ns, items) && prev.entry.timestamp < U64_LIMIT
    ensures DecodeItems(k, prev, |items|, EncodeItems(k, prev, items) + rest) == Some((items, rest))
    decreases |items|
  {
    if items == [] {
      assert [] + rest == rest;
    } else {
      var item, more := items[0], EncodeItems(k, items[0].entry, items[1..]);
      assert ValidItem(f, ns, item) && Survives(k, prev, item);
      Regroup(k.encode(prev, item), more, rest);
      ItemsRoundTrip(k, f, ns, item.entry, items[1..], rest);
      assert items == [item] + items[1..];
    }
  }

  /** A drop: the number of entries that were counted, the namespace, and the entries that were found. */
  function EncodeDrop(f: Format, ns: NamespaceId, start: AuthorisedEntry, counted: nat, items: seq<Item>): Option<seq<byte>> {
    if counted == 0 then None
    else Some(EncodeU64(counted) + (f.encodeNamespace(ns) + EncodeItems(CoderFor(f, ns), start, items)))
  }

  function DecodeDrop(f: Format, ns: NamespaceId, start: AuthorisedEntry, input: seq<byte>): Decoded<seq<Item>> {
    var count := DecodeU64(input);
    if count.None? then None
    else
      var namespace := f.decodeNamespace(count.value.1);
      if namespace.None? || namespace.value.0 != ns then None
      else DecodeItems(CoderFor(f, ns), start, count.value.0, namespace.value.1)
  }

  lemma {:induction false} DecodedCount(k: Coder, prev: AuthorisedEntry, n: nat, input: seq<byte>)
    ensures DecodeItems(k, prev, n, input).Some? ==> |DecodeItems(k, prev, n, input).value.0| == n
    decreases n
  {
    if n > 0 {
      var first := k.decode(prev, input);
      if first.Some? { DecodedCount(k, first.value.0.entry, n - 1, first.value.1); }
    }
  }

  /** Ingesting a drop recovers the entries and payloads that were put into it, and nothing is left
      over, if and only if as many entries were found as were counted before. */
  lemma DropRoundTripIff(f: Format, ns: NamespaceId, start: AuthorisedEntry, counted: nat, items: seq<Item>)
    requires LawfulFormat(f) && ValidItems(f, ns, items) && start.entry.timestamp < U64_LIMIT && 0 < counted < U64_LIMIT
    ensures DecodeDrop(f, ns, start, EncodeDrop(f, ns, start, counted, items).value) == Some((items, [])) <==> counted == |items|
  {
    var k := CoderFor(f, ns);
    var body := EncodeItems(k, start, items);
    U64RoundTrip(counted, f.encodeNamespace(ns) + body);
    assert f.decodeNamespace(f.encodeNamespace(ns) + body) == Some((ns, body));
    if counted == |items| {
      CoderForLawful(f, ns);
      ItemsRoundTrip(k, f, ns, start, items, []);
      assert body + [] == body;
    } else {
      DecodedCount(k, start, counted, body);
    }
  }

  // ---------------------------------------------------------------- the loops

  function LastEntry(start: AuthorisedEntry, items: seq<Item>): AuthorisedEntry {
    if items == [] then start else items[|items| - 1].entry
  }

  lemma {:induction false} EncodeItemsSnoc(k: Coder, start: AuthorisedEntry, items: seq<Item>, item: Item)
    ensures EncodeItems(k, start, items + [item]) == EncodeItems(k, start, items) + k.encode(LastEntry(start, items), item)
    decreases |items|
  {
    var all, last := items + [item], k.encode(LastEntry(start, items), item);
    if items == [] {
      assert all[0] == item && all[1..] == [];
      assert k.encode(start, item) + [] == [] + k.encode(start, item);
    } else {
      assert all[0] == items[0] && all[1..] == items[1..] + [item];
      EncodeItemsSnoc(k, items[0].entry, items[1..], item);
      Regroup(k.encode(start, items[0]), EncodeItems(k, items[0].entry, items[1..]), last);
    }
  }

  /** Write the items of one area, each against the entry before it. */
  method WriteArea(k: Coder, start: AuthorisedEntry, ghost before: seq<Item>, items: seq<Item>, out: seq<byte>, prev: AuthorisedEntry)
      returns (out': seq<byte>, prev': AuthorisedEntry)
    requires out == EncodeItems(k, start, before) && prev == LastEntry(start, before)
    ensures out' == EncodeItems(k, start, before + items) && prev' == LastEntry(start, before + items)
  {
    out', prev' := out, prev;
    assert before + items[..0] == before;
    for i := 0 to |items|
      invariant out' == EncodeItems(k, start, before + items[..i]) && prev' == LastEntry(start, before + items[..i])
    {
      EncodeItemsSnoc(k, start, before + items[..i], items[i]);
      assert before + items[..i + 1] == before + items[..i] + [items[i]];
      out' := out' + k.encode(prev', items[i]);
      prev' := items[i].entry;
    }
    assert items[..|items|] == items;
  }

  ghost predicate DecodesValid(k: Coder, f: Format, ns: NamespaceId) {
    forall prev: AuthorisedEntry, input | ValidEntry(f.lim, f.width, prev.entry) && k.decode(prev, input).Some? ::
      ValidItem(f, ns, k.decode(prev, input).value.0)
  }

  lemma {:induction false} DecodedItemsValid(k: Coder, f: Format, ns: NamespaceId, prev: AuthorisedEntry, n: nat, input: seq<byte>)
    requires DecodesValid(k, f, ns) && ValidEntry(f.lim, f.width, prev.entry) && DecodeItems(k, prev, n, input).Some?
    ensures ValidItems(f, ns, DecodeItems(k, prev, n, input).value.0)
    decreases n
  {
    if n > 0 {
      var first := k.decode(prev, input).value;
      DecodedItemsValid(k, f, ns, first.0.entry, n - 1, first.1);
    }
  }

  lemma CoderDecodesValid(f: Format, ns: NamespaceId)
    ensures DecodesValid(CoderFor(f, ns), f, ns)
  {
    forall prev: AuthorisedEntry, input | ValidEntry(f.lim, f.width, prev.entry) && DecodeItem(f, ns, prev, input).Some?
      ensures ValidItem(f, ns, DecodeItem(f, ns, prev, input).value.0)
    {
      DecodedItemValid(f, ns, prev, input);
    }
  }

  /** A drop that decodes is one of the namespace, and all of its items are valid. */
  lemma DecodedDropValid(f: Format, ns: NamespaceId, start: AuthorisedEntry, input: seq<byte>)
    requires ValidEntry(f.lim, f.width, start.entry) && DecodeDrop(f, ns, start, input).Some?
    ensures ValidItems(f, ns, DecodeDrop(f, ns, start, input).value.0)
    ensures DecodeU64(input).Some? && f.decodeNamespace(DecodeU64(input).value.1).Some?
    ensures f.decodeNamespace(DecodeU64(input).value.1).value.0 == ns
    ensures |DecodeDrop(f, ns, start, input).value.0| == DecodeU64(input).value.0
  {
    var (count, after) := DecodeU64(input).value;
    var rest := f.decodeNamespace(after).value.1;
    CoderDecodesValid(f, ns);
    DecodedItemsValid(CoderFor(f, ns), f, ns, start, count, rest);
    DecodedCount(CoderFor(f, ns), start, count, rest);
  }

  /** An item byte by byte: another subspace, a later time, and a payload of two bytes. */
  lemma EncodedItemExample(f: Format, ns: NamespaceId, digest: nat, token: Token, prev: AuthorisedEntry)
    requires prev.entry == Entry(ns, [6], [[1]], 10, 0, 0)
    ensures var e := Entry(ns, [7], [[1], [2]], 13, 2, digest);
      EncodeItem(f, prev, Item(AuthorisedEntry(e, token), Some([8, 9])))
        == [224, 7, 1, 17, 2, 3, 2] + (f.encodeDigest(digest) + (f.encodeToken(token, prev, e) + [8, 9]))
  {
    var e := Entry(ns, [7], [[1], [2]], 13, 2, digest);
    var p: Path, q: Path, two: Path, none: Path := [[1], [2]], [[1]], [[2]], [];
    assert p[1..] == two && q[1..] == none && two[1..] == [] && PathLength(two) == 1;
    assert CommonPrefixLength(two, none) == 0 && CommonPrefixLength(p, q) == 1;
    assert EncodeRelativePath(p, q) == [1, 17, 2];
    assert BigEndian(3, 1) == [3] && BigEndian(2, 1) == [2];
    var d, t := f.encodeDigest(digest), f.encodeToken(token, prev, e);
    assert [224] + (([7] + [1, 17, 2]) + (([3] + ([2] + d)) + (t + [8, 9]))) == [224, 7, 1, 17, 2, 3, 2] + (d + (t + [8, 9]));
  }
}
