/** Communal capabilities: chains of signed delegations to smaller and smaller areas, and their
    encoding relative to an earlier capability and to an entry that they authorise. */
module Capabilities {
  import opened Wrappers
  import opened ByteStrings
  import opened Paths
  import opened Grouping
  import opened Entries
  import opened KeyCodec
  import opened PathEncodings
  import opened PrivateEncodings

  type UserKey = SubspaceId
  type Signature(==, !new)
  type SecretKey(==, !new)

  datatype AccessMode = Read | Write

  datatype Delegation = Delegation(area: Area, user: UserKey, signature: Signature)

  datatype Cap = Cap(mode: AccessMode, namespace: NamespaceId, userKey: UserKey, delegations: seq<Delegation>)

  /** The parameters of the scheme, known by what they compute. */
  datatype Scheme = Scheme(
    lim: Limits, width: nat,
    isCommunal: NamespaceId -> bool,
    handover: (Cap, Area, UserKey) -> seq<byte>,
    sign: (SecretKey, seq<byte>) -> Signature,
    verify: (UserKey, seq<byte>, Signature) -> bool,
    encodeSignature: Signature -> seq<byte>,
    decodeSignature: seq<byte> -> Decoded<Signature>)

  /** Signatures decode from whatever starts with their encoding. */
  ghost predicate LawfulScheme(c: Scheme) {
    SmallLimits(c.lim) && forall s, rest :: c.decodeSignature(c.encodeSignature(s) + rest) == Some((s, rest))
  }

  // ---------------------------------------------------------------- chains

  function Receiver(cap: Cap): UserKey {
    if cap.delegations == [] then cap.userKey else cap.delegations[|cap.delegations| - 1].user
  }

  function GrantedArea(cap: Cap): Area {
    if cap.delegations == [] then SubspaceArea(cap.userKey) else cap.delegations[|cap.delegations| - 1].area
  }

  function Without(cap: Cap): Cap
    requires cap.delegations != []
  {
    cap.(delegations := cap.delegations[..|cap.delegations| - 1])
  }

  function With(cap: Cap, d: Delegation): Cap {
    cap.(delegations := cap.delegations + [d])
  }

  /** What appending a delegation checks. */
  predicate Delegable(c: Scheme, cap: Cap, d: Delegation) {
    AreaIncludesArea(GrantedArea(cap), d.area) && c.verify(Receiver(cap), c.handover(cap, d.area, d.user), d.signature)
  }

  /** Each area lies within the one before, and each signature is accepted by the receiver before. */
  predicate ValidCap(c: Scheme, cap: Cap)
    decreases |cap.delegations|
  {
    if cap.delegations == [] then c.isCommunal(cap.namespace)
    else Delegable(c, Without(cap), cap.delegations[|cap.delegations| - 1]) && ValidCap(c, Without(cap))
  }

  lemma AppendKeepsValid(c: Scheme, cap: Cap, d: Delegation)
    requires ValidCap(c, cap) && Delegable(c, cap, d)
    ensures ValidCap(c, With(cap, d))
  {
    assert Without(With(cap, d)) == cap;
  }

  lemma AreaIncludesAreaTransitive(a: Area, b: Area, x: Area)
    requires AreaIncludesArea(a, b) && AreaIncludesArea(b, x)
    ensures AreaIncludesArea(a, x)
  {}

  function Prefix(cap: Cap, n: nat): Cap
    requires n <= |cap.delegations|
  {
    cap.(delegations := cap.delegations[..n])
  }

  /** Every area of a chain includes all the later ones, and all lie in the subspace of the first user. */
  lemma {:induction false} ChainIsNested(c: Scheme, cap: Cap, n: nat)
    requires ValidCap(c, cap) && n <= |cap.delegations|
    ensures ValidCap(c, Prefix(cap, n)) && AreaIncludesArea(GrantedArea(Prefix(cap, n)), GrantedArea(cap))
    ensures GrantedArea(cap).subspace == Id(cap.userKey)
    decreases |cap.delegations|
  {
    if n == |cap.delegations| {
      assert Prefix(cap, n) == cap;
      if n > 0 { ChainIsNested(c, Without(cap), n - 1); }
    } else {
      ChainIsNested(c, Without(cap), n);
      assert Prefix(Without(cap), n) == Prefix(cap, n);
      AreaIncludesAreaTransitive(GrantedArea(Prefix(cap, n)), GrantedArea(Without(cap)), GrantedArea(cap));
    }
  }

  /** Who signed the delegation number `n`, and what it could grant at most. */
  function SignerBefore(cap: Cap, n: nat): UserKey
    requires n <= |cap.delegations|
  {
    if n == 0 then cap.userKey else cap.delegations[n - 1].user
  }

  function AreaBefore(cap: Cap, n: nat): Area
    requires n <= |cap.delegations|
  {
    if n == 0 then Area(Id(cap.userKey), [], Range(0, Open)) else cap.delegations[n - 1].area
  }

  /** Delegation number `n` lies within the area before, and was signed by the user before, together with
      everything up to there. */
  predicate Signed(c: Scheme, cap: Cap, n: nat)
    requires n < |cap.delegations|
  {
    var d, before := cap.delegations[n], Cap(cap.mode, cap.namespace, cap.userKey, cap.delegations[..n]);
    AreaIncludesArea(AreaBefore(cap, n), d.area) && c.verify(SignerBefore(cap, n), c.handover(before, d.area, d.user), d.signature)
  }

  lemma SignedBefore(c: Scheme, cap: Cap, i: nat)
    requires i + 1 < |cap.delegations|
    ensures Signed(c, Without(cap), i) <==> Signed(c, cap, i)
  {
    assert Without(cap).delegations[..i] == cap.delegations[..i];
  }

  lemma LastSigned(c: Scheme, cap: Cap)
    requires cap.delegations != []
    ensures Signed(c, cap, |cap.delegations| - 1) <==> Delegable(c, Without(cap), cap.delegations[|cap.delegations| - 1])
  {}

  /** A chain is valid exactly if its namespace is communal and all of its delegations are signed. */
  lemma {:induction false} ValidCapIff(c: Scheme, cap: Cap)
    ensures ValidCap(c, cap) <==> c.isCommunal(cap.namespace) && forall i | 0 <= i < |cap.delegations| :: Signed(c, cap, i)
    decreases |cap.delegations|
  {
    if cap.delegations != [] {
      ValidCapIff(c, Without(cap));
      LastSigned(c, cap);
      forall i | 0 <= i < |cap.delegations| - 1 ensures Signed(c, Without(cap), i) <==> Signed(c, cap, i) { SignedBefore(c, cap, i); }
    }
  }

  /** A prefix of a chain can be extended by what follows it. */
  lemma {:induction false} NextDelegable(c: Scheme, cap: Cap, n: nat)
    requires ValidCap(c, cap) && n < |cap.delegations|
    ensures Delegable(c, Prefix(cap, n), cap.delegations[n]) && With(Prefix(cap, n), cap.delegations[n]) == Prefix(cap, n + 1)
  {
    ChainIsNested(c, cap, n + 1);
    assert Without(Prefix(cap, n + 1)) == Prefix(cap, n);
  }

  // ---------------------------------------------------------------- capabilities

  datatype DelegationError = AreaNotIncluded | WrongSecretForUser | InvalidSignature

  class CommunalCapability {
    const c: Scheme
    const mode: AccessMode
    const namespace: NamespaceId
    const userKey: UserKey
    var delegations: seq<Delegation>

    ghost function View(): Cap
      reads this
    {
      Cap(mode, namespace, userKey, delegations)
    }

    ghost predicate Valid()
      reads this
    {
      ValidCap(c, View())
    }

    constructor (c: Scheme, mode: AccessMode, namespace: NamespaceId, userKey: UserKey)
      requires c.isCommunal(namespace)
      ensures Valid() && this.c == c && View() == Cap(mode, namespace, userKey, [])
    {
      this.c, this.mode, this.namespace, this.userKey, delegations := c, mode, namespace, userKey, [];
    }

    method GetReceiver() returns (user: UserKey)
      ensures user == Receiver(View())
    {
      if delegations == [] { return userKey; }
      return delegations[|delegations| - 1].user;
    }

    method GetGrantedArea() returns (area: Area)
      ensures area == GrantedArea(View())
    {
      if delegations == [] { return SubspaceArea(userKey); }
      return delegations[|delegations| - 1].area;
    }

    /** A new capability with one more delegation, signed with the given secret. */
    method Delegate(secret: SecretKey, newUser: UserKey, newArea: Area)
        returns (r: Result<CommunalCapability, DelegationError>)
      requires Valid()
      ensures var d := Delegation(newArea, newUser, c.sign(secret, c.handover(View(), newArea, newUser)));
        && (r.Ok? <==> Delegable(c, View(), d))
        && (r.Ok? ==> fresh(r.value) && r.value.c == c && r.value.View() == With(View(), d) && r.value.Valid())
        && (r.Err? ==> r.error == if AreaIncludesArea(GrantedArea(View()), newArea) then WrongSecretForUser else AreaNotIncluded)
    {
      var prevArea := GetGrantedArea();
      if !AreaIncludesArea(prevArea, newArea) { return Err(AreaNotIncluded); }
      var prevUser := GetReceiver();
      var handover := c.handover(Cap(mode, namespace, userKey, delegations), newArea, newUser);
      var signature := c.sign(secret, handover);
      if !c.verify(prevUser, handover, signature) { return Err(WrongSecretForUser); }
      ChainIsNested(c, View(), 0);
      var cap := new CommunalCapability(c, mode, namespace, userKey);
      cap.delegations := delegations + [Delegation(newArea, newUser, signature)];
      AppendKeepsValid(c, View(), Delegation(newArea, newUser, signature));
      return Ok(cap);
    }

    method AppendExistingDelegation(d: Delegation) returns (r: Result<(), DelegationError>)
      requires Valid()
      modifies this
      ensures Valid()
      ensures r.Ok? <==> Delegable(c, old(View()), d)
      ensures View() == if r.Ok? then With(old(View()), d) else old(View())
      ensures r.Err? ==> r.error == if AreaIncludesArea(GrantedArea(View()), d.area) then InvalidSignature else AreaNotIncluded
    {
      var prevArea := GetGrantedArea();
      if !AreaIncludesArea(prevArea, d.area) { return Err(AreaNotIncluded); }
      var prevReceiver := GetReceiver();
      if !c.verify(prevReceiver, c.handover(Cap(mode, namespace, userKey, delegations), d.area, d.user), d.signature) {
        return Err(InvalidSignature);
      }
      AppendKeepsValid(c, View(), d);
      delegations := delegations + [d];
      return Ok(());
    }
  }

  method LongestCommonDelegationPrefixLength(mine: seq<Delegation>, others: seq<Delegation>) returns (count: nat)
    ensures count == CommonPrefixLength(mine, others)
  {
    count := 0;
    ghost var common := CommonPrefixLength(mine, others);
    while count < (if |mine| < |others| then |mine| else |others|)
      invariant count <= common
    {
      assert count < common ==> mine[..common][count] == others[..common][count];
      if mine[count] != others[count] { break; }
      count := count + 1;
    }
  }

  // ---------------------------------------------------------------- delegations relative to an entry

  function InterestOf(e: Entry): PrivateInterest {
    PrivateInterest(Id(e.subspace), e.path)
  }

  function EncodeDelegation(c: Scheme, e: Entry, prev: Area, d: Delegation): Option<seq<byte>> {
    var area := EncodePrivateArea(d.area, AreaContext(InterestOf(e), prev));
    if area.None? then None else Some(area.value + (d.user + c.encodeSignature(d.signature)))
  }

  /** How single delegations are encoded and decoded relative to the area of the one before. */
  datatype Links = Links(
    encode: (Area, Delegation) -> Option<seq<byte>>,
    decode: (Area, seq<byte>) -> Decoded<Delegation>)

  function LinksFor(c: Scheme, e: Entry): Links {
    Links((prev, d) => EncodeDelegation(c, e, prev, d), (prev, input) => DecodeDelegation(c, e, prev, input))
  }

  function EncodeChain(k: Links, prev: Area, ds: seq<Delegation>): Option<seq<byte>>
    decreases |ds|
  {
    if ds == [] then Some([])
    else
      var first, more := k.encode(prev, ds[0]), EncodeChain(k, ds[0].area, ds[1..]);
      if first.None? || more.None? then None else Some(first.value + more.value)
  }

  function DecodeDelegation(c: Scheme, e: Entry, prev: Area, input: seq<byte>): Decoded<Delegation> {
    var area := DecodePrivateArea(c.lim, c.width, AreaContext(InterestOf(e), prev), input);
    if area.None? || |area.value.1| < c.width then None
    else
      var user, afterUser := area.value.1[..c.width], area.value.1[c.width..];
      var signature := c.decodeSignature(afterUser);
      if signature.None? then None
      else Some((Delegation(area.value.0, user, signature.value.0), signature.value.1))
  }

  /** Decode `n` more delegations and append each of them. */
  function DecodeChain(k: Links, c: Scheme, cap: Cap, prev: Area, n: nat, input: seq<byte>): Decoded<Cap>
    decreases n
  {
    if n == 0 then Some((cap, input))
    else
      var d := k.decode(prev, input);
      if d.None? || !Delegable(c, cap, d.value.0) then None
      else DecodeChain(k, c, With(cap, d.value.0), d.value.0.area, n - 1, d.value.1)
  }

  /** Whatever chain is decoded is valid. */
  lemma {:induction false} DecodedChainValid(k: Links, c: Scheme, cap: Cap, prev: Area, n: nat, input: seq<byte>)
    requires ValidCap(c, cap) && DecodeChain(k, c, cap, prev, n, input).Some?
    ensures ValidCap(c, DecodeChain(k, c, cap, prev, n, input).value.0)
    ensures |DecodeChain(k, c, cap, prev, n, input).value.0.delegations| == |cap.delegations| + n
    decreases n
  {
    if n > 0 {
      var d := k.decode(prev, input).value;
      AppendKeepsValid(c, cap, d.0);
      DecodedChainValid(k, c, With(cap, d.0), d.0.area, n - 1, d.1);
    }
  }

  predicate ValidDelegation(c: Scheme, d: Delegation) {
    ValidArea(c.lim, c.width, d.area) && ValidTimes(d.area.times) && |d.user| == c.width
  }

  lemma DelegationRoundTrip(c: Scheme, e: Entry, prev: Area, d: Delegation, rest: seq<byte>)
    requires LawfulScheme(c) && ValidDelegation(c, d) && ValidTimes(prev.times)
    requires AreaIncludesArea(prev, d.area) && AreaIncludes(d.area, e.subspace, e.path, e.timestamp)
    ensures EncodeDelegation(c, e, prev, d).Some?
    ensures DecodeDelegation(c, e, prev, EncodeDelegation(c, e, prev, d).value + rest) == Some((d, rest))
  {
    var ctx := AreaContext(InterestOf(e), prev);
    var s := c.encodeSignature(d.signature);
    PrivateAreaRoundTripIff(c.lim, c.width, d.area, ctx, (d.user + s) + rest);
    var area := EncodePrivateArea(d.area, ctx).value;
    Regroup(area, d.user + s, rest);
    Regroup(d.user, s, rest);
    PathEncodings.Split(d.user, s + rest);
  }

  predicate ValidDelegations(c: Scheme, ds: seq<Delegation>) {
    forall i | 0 <= i < |ds| :: ValidDelegation(c, ds[i])
  }

  lemma EncodeLink(k: Links, prev: Area, ds: seq<Delegation>, link: seq<byte>, more: seq<byte>)
    requires ds != [] && k.encode(prev, ds[0]) == Some(link) && EncodeChain(k, ds[0].area, ds[1..]) == Some(more)
    ensures EncodeChain(k, prev, ds) == Some(link + more)
  {}

  /** One link of a chain on the way there and back. */
  lemma LinkRoundTrip(k: Links, c: Scheme, cap: Cap, prev: Area, d: Delegation, n: nat, link: seq<byte>, more: seq<byte>,
                      rest: seq<byte>, whole: Cap)
    requires k.encode(prev, d) == Some(link) && k.decode(prev, link + (more + rest)) == Some((d, more + rest))
    requires Delegable(c, cap, d) && DecodeChain(k, c, With(cap, d), d.area, n, more + rest) == Some((whole, rest))
    ensures DecodeChain(k, c, cap, prev, n + 1, (link + more) + rest) == Some((whole, rest))
  {
    Regroup(link, more, rest);
  }

  /** The next link of a valid chain fits, and its area still includes the entry. */
  lemma NextLink(c: Scheme, e: Entry, cap: Cap, from: nat, prev: Area)
    requires ValidCap(c, cap) && from < |cap.delegations|
    requires AreaIncludes(GrantedArea(cap), e.subspace, e.path, e.timestamp)
    requires AreaIncludesArea(prev, GrantedArea(Prefix(cap, from)))
    ensures var d := cap.delegations[from];
      && Delegable(c, Prefix(cap, from), d) && With(Prefix(cap, from), d) == Prefix(cap, from + 1)
      && AreaIncludesArea(prev, d.area) && GrantedArea(Prefix(cap, from + 1)) == d.area
      && AreaIncludes(d.area, e.subspace, e.path, e.timestamp)
  {
    NextDelegable(c, cap, from);
    ChainIsNested(c, cap, from + 1);
    AreaIncludesAreaTransitive(prev, GrantedArea(Prefix(cap, from)), cap.delegations[from].area);
  }

  /** A delegation that may follow `prev` in a chain that authorises the entry. */
  predicate Fits(c: Scheme, e: Entry, prev: Area, d: Delegation) {
    && ValidDelegation(c, d) && ValidTimes(prev.times) && AreaIncludesArea(prev, d.area)
    && AreaIncludes(d.area, e.subspace, e.path, e.timestamp)
  }

  /** Fitting delegations survive encoding and decoding. */
  ghost predicate LawfulLinks(k: Links, c: Scheme, e: Entry) {
    forall prev: Area, d: Delegation | Fits(c, e, prev, d) :: Survives(k, prev, d)
  }

  ghost predicate Survives(k: Links, prev: Area, d: Delegation) {
    k.encode(prev, d).Some? && forall rest :: k.decode(prev, k.encode(prev, d).value + rest) == Some((d, rest))
  }

  lemma LinksForLawful(c: Scheme, e: Entry)
    requires LawfulScheme(c)
    ensures LawfulLinks(LinksFor(c, e), c, e)
  {
    var k := LinksFor(c, e);
    forall prev: Area, d: Delegation | Fits(c, e, prev, d) ensures Survives(k, prev, d) {
      DelegationRoundTrip(c, e, prev, d, []);
      forall rest ensures k.decode(prev, k.encode(prev, d).value + rest) == Some((d, rest)) {
        DelegationRoundTrip(c, e, prev, d, rest);
      }
    }
  }

  /** Decoding what follows a prefix of a valid chain recovers the whole chain. */
  lemma {:induction false} ChainRoundTrip(k: Links, c: Scheme, e: Entry, cap: Cap, from: nat, prev: Area, rest: seq<byte>)
    requires LawfulLinks(k, c, e) && ValidCap(c, cap) && ValidDelegations(c, cap.delegations)
    requires AreaIncludes(GrantedArea(cap), e.subspace, e.path, e.timestamp)
    requires from <= |cap.delegations| && ValidTimes(prev.times)
    requires AreaIncludesArea(prev, GrantedArea(Prefix(cap, from)))
    ensures EncodeChain(k, prev, cap.delegations[from..]).Some?
    ensures DecodeChain(k, c, Prefix(cap, from), prev, |cap.delegations| - from,
      EncodeChain(k, prev, cap.delegations[from..]).value + rest) == Some((cap, rest))
    decreases |cap.delegations| - from
  {
    var ds := cap.delegations[from..];
    if from == |cap.delegations| {
      assert Prefix(cap, from) == cap && [] + rest == rest;
    } else {
      var d := cap.delegations[from];
      NextLink(c, e, cap, from, prev);
      ChainRoundTrip(k, c, e, cap, from + 1, d.area, rest);
      OneLinkBefore(k, c, e, cap, from, prev, EncodeChain(k, d.area, cap.delegations[from + 1..]).value, rest);
    }
  }

  lemma OneLinkBefore(k: Links, c: Scheme, e: Entry, cap: Cap, from: nat, prev: Area, more: seq<byte>, rest: seq<byte>)
    requires LawfulLinks(k, c, e) && from < |cap.delegations| && Fits(c, e, prev, cap.delegations[from])
    requires Delegable(c, Prefix(cap, from), cap.delegations[from])
    requires With(Prefix(cap, from), cap.delegations[from]) == Prefix(cap, from + 1)
    requires EncodeChain(k, cap.delegations[from].area, cap.delegations[from + 1..]) == Some(more)
    requires DecodeChain(k, c, Prefix(cap, from + 1), cap.delegations[from].area, |cap.delegations| - (from + 1), more + rest)
      == Some((cap, rest))
    ensures EncodeChain(k, prev, cap.delegations[from..]).Some?
    ensures DecodeChain(k, c, Prefix(cap, from), prev, |cap.delegations| - from,
      EncodeChain(k, prev, cap.delegations[from..]).value + rest) == Some((cap, rest))
  {
    var d, ds, n := cap.delegations[from], cap.delegations[from..], |cap.delegations| - (from + 1);
    assert ds != [] && ds[0] == d && ds[1..] == cap.delegations[from + 1..];
    assert Survives(k, prev, d);
    var link := k.encode(prev, d).value;
    EncodeLink(k, prev, ds, link, more);
    LinkRoundTrip(k, c, Prefix(cap, from), prev, d, n, link, more, rest, cap);
  }

  // ---------------------------------------------------------------- whole capabilities

  /** The capability that was transmitted before: another communal one, or an owned one. */
  datatype Prior = PriorCommunal(cap: Cap) | PriorOwned(mode: AccessMode, delegations: seq<Delegation>)

  function PriorMode(prior: Prior): AccessMode {
    match prior case PriorCommunal(cap) => cap.mode case PriorOwned(mode, _) => mode
  }

  function PriorDelegations(prior: Prior): seq<Delegation> {
    match prior case PriorCommunal(cap) => cap.delegations case PriorOwned(_, ds) => ds
  }

  predicate Authorises(cap: Cap, e: Entry) {
    cap.mode.Write? && cap.namespace == e.namespaceId && AreaIncludes(GrantedArea(cap), e.subspace, e.path, e.timestamp)
  }

  /** Delegations taken over from the prior capability, and the number that says so: one more, or zero for an owned one. */
  function Shared(cap: Cap, prior: Prior): (n: nat)
    ensures n <= |cap.delegations|
  {
    match prior
    case PriorCommunal(other) => CommonPrefixLength(cap.delegations, other.delegations)
    case PriorOwned(_, _) => 0
  }

  function Marker(prior: Prior, shared: nat): nat {
    if prior.PriorCommunal? then shared + 1 else 0
  }

  function EncodeNumbers(marker: nat, count: nat): seq<byte> {
    [16 * MinTag(marker, 3) + MinTag(count, 4)] + (EncodeCompact(marker, 3) + EncodeCompact(count, 4))
  }

  function DecodeNumbers(input: seq<byte>): Decoded<(nat, nat)> {
    if input == [] || input[0] >= 128 then None
    else
      var marker := DecodeCompact(input[0] / 16 % 8, 3, input[1..]);
      if marker.None? then None
      else
        var count := DecodeCompact(input[0] % 16, 4, marker.value.1);
        if count.None? then None else Some(((marker.value.0, count.value.0), count.value.1))
  }

  lemma NumbersByte(t: nat, u: nat)
    requires t < 8 && u < 16
    ensures var h := 16 * t + u; h < 128 && h / 16 % 8 == t && h % 16 == u
  {}

  /** The byte with both tags, and whatever follows. */
  lemma NumbersAfter(h: byte, m: seq<byte>, n: seq<byte>, rest: seq<byte>)
    ensures var input := ([h] + (m + n)) + rest;
      input != [] && input[0] == h && input[1..] == m + (n + rest)
  {
    Regroup([h], m + n, rest);
    Regroup(m, n, rest);
    PathEncodings.Split([h], m + (n + rest));
  }

  lemma NumbersRoundTrip(marker: nat, count: nat, rest: seq<byte>)
    requires marker < U64_LIMIT && count < U64_LIMIT
    ensures DecodeNumbers(EncodeNumbers(marker, count) + rest) == Some(((marker, count), rest))
  {
    var t, u := MinTag(marker, 3), MinTag(count, 4);
    var m, n := EncodeCompact(marker, 3), EncodeCompact(count, 4);
    NumbersByte(t, u);
    NumbersAfter(16 * t + u, m, n, rest);
    CompactRoundTrip(marker, 3, n + rest);
    CompactRoundTrip(count, 4, rest);
  }

  /** What stands before the delegations: one more than are shared, and how many there are in all. */
  lemma EncodedNumbersExamples()
    ensures EncodeNumbers(2, 3) == [35] && EncodeNumbers(0, 20) == [12, 20] && EncodeNumbers(5, 1) == [65, 5]
  {
    assert BigEndian(20, 1) == [20] && BigEndian(5, 1) == [5];
  }

  /** The highest bit of the first byte is never set. */
  lemma HighestBitRefused(c: Scheme, prior: Prior, e: Entry, input: seq<byte>)
    requires input != [] && input[0] >= 128
    ensures DecodeCap(c, prior, e, input).None?
  {}

  /** `None` where the encoder refuses its input. */
  function EncodeCap(c: Scheme, cap: Cap, prior: Prior, e: Entry): Option<seq<byte>> {
    if PriorMode(prior).Read? || !Authorises(cap, e) then None
    else
      var shared := Shared(cap, prior);
      var chain := EncodeChain(LinksFor(c, e), SubspaceArea(e.subspace), cap.delegations[shared..]);
      if chain.None? then None
      else Some(EncodeNumbers(Marker(prior, shared), |cap.delegations|) + chain.value)
  }

  /** Append the first `n` of some delegations, as far as there are any. */
  function AppendShared(c: Scheme, cap: Cap, ds: seq<Delegation>, n: nat): Option<Cap>
    decreases |ds|
  {
    if ds == [] || n == 0 then Some(cap)
    else if !Delegable(c, cap, ds[0]) then None
    else AppendShared(c, With(cap, ds[0]), ds[1..], n - 1)
  }

  function DecodeCap(c: Scheme, prior: Prior, e: Entry, input: seq<byte>): Decoded<Cap> {
    var numbers := DecodeNumbers(input);
    if numbers.None? then None else DecodeBody(LinksFor(c, e), c, prior, e, numbers.value.0.0, numbers.value.0.1, numbers.value.1)
  }

  function DecodeBody(k: Links, c: Scheme, prior: Prior, e: Entry, marker: nat, count: nat, input: seq<byte>): Decoded<Cap> {
    var base := Cap(Write, e.namespaceId, e.subspace, []);
    if !c.isCommunal(e.namespaceId) then None
    else if count == 0 then Some((base, input))
    else DecodeRest(k, c, base, PriorDelegations(prior), SubspaceArea(e.subspace), if marker == 0 then 0 else marker - 1, count, input)
  }

  /** Take over what is shared, and decode the rest. */
  function DecodeRest(k: Links, c: Scheme, base: Cap, ds: seq<Delegation>, start: Area, shared: nat, count: nat, input: seq<byte>): Decoded<Cap> {
    var cap := AppendShared(c, base, ds, shared);
    if cap.None? || count < shared then None else DecodeChain(k, c, cap.value, start, count - shared, input)
  }

  lemma {:induction false} SharedStaysValid(c: Scheme, cap: Cap, ds: seq<Delegation>, n: nat)
    requires ValidCap(c, cap) && AppendShared(c, cap, ds, n).Some?
    ensures ValidCap(c, AppendShared(c, cap, ds, n).value)
    decreases |ds|
  {
    if ds != [] && n > 0 {
      AppendKeepsValid(c, cap, ds[0]);
      SharedStaysValid(c, With(cap, ds[0]), ds[1..], n - 1);
    }
  }

  lemma DecodedRestValid(k: Links, c: Scheme, base: Cap, ds: seq<Delegation>, start: Area, shared: nat, count: nat, input: seq<byte>)
    requires ValidCap(c, base) && DecodeRest(k, c, base, ds, start, shared, count, input).Some?
    ensures var cap := DecodeRest(k, c, base, ds, start, shared, count, input).value.0;
      ValidCap(c, cap) && cap.(delegations := base.delegations) == base
  {
    var cap := AppendShared(c, base, ds, shared).value;
    SharedStaysValid(c, base, ds, shared);
    SharedKeepsOwner(c, base, ds, shared);
    DecodedChainValid(k, c, cap, start, count - shared, input);
    ChainKeepsOwner(k, c, cap, start, count - shared, input);
  }

  lemma DecodedBodyValid(k: Links, c: Scheme, prior: Prior, e: Entry, marker: nat, count: nat, input: seq<byte>)
    requires DecodeBody(k, c, prior, e, marker, count, input).Some?
    ensures var cap := DecodeBody(k, c, prior, e, marker, count, input).value.0;
      ValidCap(c, cap) && cap.mode.Write? && cap.namespace == e.namespaceId && cap.userKey == e.subspace
  {
    if count > 0 {
      DecodedRestValid(k, c, Cap(Write, e.namespaceId, e.subspace, []), PriorDelegations(prior), SubspaceArea(e.subspace),
        if marker == 0 then 0 else marker - 1, count, input);
    }
  }

  /** Whatever capability is decoded is a valid one to write, of the namespace and subspace of the entry. */
  lemma DecodedCapValid(c: Scheme, prior: Prior, e: Entry, input: seq<byte>)
    requires DecodeCap(c, prior, e, input).Some?
    ensures var cap := DecodeCap(c, prior, e, input).value.0;
      ValidCap(c, cap) && cap.mode.Write? && cap.namespace == e.namespaceId && cap.userKey == e.subspace
  {
    var numbers := DecodeNumbers(input).value;
    DecodedBodyValid(LinksFor(c, e), c, prior, e, numbers.0.0, numbers.0.1, numbers.1);
  }

  lemma {:induction false} SharedKeepsOwner(c: Scheme, cap: Cap, ds: seq<Delegation>, n: nat)
    requires AppendShared(c, cap, ds, n).Some?
    ensures AppendShared(c, cap, ds, n).value.(delegations := cap.delegations) == cap
    decreases |ds|
  {
    if ds != [] && n > 0 { SharedKeepsOwner(c, With(cap, ds[0]), ds[1..], n - 1); }
  }

  lemma {:induction false} ChainKeepsOwner(k: Links, c: Scheme, cap: Cap, prev: Area, n: nat, input: seq<byte>)
    requires DecodeChain(k, c, cap, prev, n, input).Some?
    ensures DecodeChain(k, c, cap, prev, n, input).value.0.(delegations := cap.delegations) == cap
    decreases n
  {
    if n > 0 {
      var d := k.decode(prev, input).value;
      ChainKeepsOwner(k, c, With(cap, d.0), d.0.area, n - 1, d.1);
    }
  }

  /** Taking over the shared delegations rebuilds the beginning of the chain. */
  lemma {:induction false} SharedRebuilds(c: Scheme, cap: Cap, from: nat, n: nat, others: seq<Delegation>)
    requires ValidCap(c, cap) && from + n <= |cap.delegations| && n <= |others|
    requires cap.delegations[from..from + n] == others[..n]
    ensures AppendShared(c, Prefix(cap, from), others, n) == Some(Prefix(cap, from + n))
    decreases n
  {
    if n > 0 {
      assert others[0] == others[..n][0] == cap.delegations[from..from + n][0];
      NextDelegable(c, cap, from);
      assert cap.delegations[from + 1..from + 1 + (n - 1)] == cap.delegations[from..from + n][1..];
      assert others[1..][..n - 1] == others[..n][1..];
      SharedRebuilds(c, cap, from + 1, n - 1, others[1..]);
    }
  }

  /** A capability that may be encoded relative to an entry and a prior write capability decodes to
      itself, however much of its chain the prior capability shares. */
  lemma CapRoundTrip(c: Scheme, cap: Cap, prior: Prior, e: Entry, rest: seq<byte>)
    requires LawfulScheme(c) && ValidCap(c, cap) && |cap.delegations| + 1 < U64_LIMIT
    requires ValidDelegations(c, cap.delegations)
    requires PriorMode(prior).Write? && Authorises(cap, e)
    ensures EncodeCap(c, cap, prior, e).Some?
    ensures DecodeCap(c, prior, e, EncodeCap(c, cap, prior, e).value + rest) == Some((cap, rest))
  {
    var shared, count := Shared(cap, prior), |cap.delegations|;
    LinksForLawful(c, e);
    var chain := BodyRoundTrip(LinksFor(c, e), c, cap, prior, e, shared, rest);
    var numbers := EncodeNumbers(Marker(prior, shared), count);
    Regroup(numbers, chain, rest);
    NumbersRoundTrip(Marker(prior, shared), count, chain + rest);
  }

  lemma BodyRoundTrip(k: Links, c: Scheme, cap: Cap, prior: Prior, e: Entry, shared: nat, rest: seq<byte>) returns (chain: seq<byte>)
    requires LawfulLinks(k, c, e) && ValidCap(c, cap) && ValidDelegations(c, cap.delegations) && Authorises(cap, e)
    requires shared == Shared(cap, prior)
    ensures EncodeChain(k, SubspaceArea(e.subspace), cap.delegations[shared..]) == Some(chain)
    ensures DecodeBody(k, c, prior, e, Marker(prior, shared), |cap.delegations|, chain + rest) == Some((cap, rest))
  {
    BaseOfChain(c, cap, e, shared);
    chain := RestRoundTrip(k, c, cap, e, shared, rest);
    if cap.delegations == [] {
      assert [] + rest == rest;
    } else {
      WholeBody(k, c, cap, prior, e, shared, chain, rest);
    }
  }

  lemma WholeBody(k: Links, c: Scheme, cap: Cap, prior: Prior, e: Entry, shared: nat, chain: seq<byte>, rest: seq<byte>)
    requires ValidCap(c, cap) && cap.delegations != [] && shared == Shared(cap, prior) && c.isCommunal(e.namespaceId)
    requires Prefix(cap, 0) == Cap(Write, e.namespaceId, e.subspace, [])
    requires DecodeChain(k, c, Prefix(cap, shared), SubspaceArea(e.subspace), |cap.delegations| - shared, chain + rest)
      == Some((cap, rest))
    ensures DecodeBody(k, c, prior, e, Marker(prior, shared), |cap.delegations|, chain + rest) == Some((cap, rest))
  {
    SharedTakenOver(c, cap, prior);
    BodyFollows(k, c, prior, e, shared, |cap.delegations|, chain + rest, Prefix(cap, shared), cap, rest);
  }

  lemma RestRoundTrip(k: Links, c: Scheme, cap: Cap, e: Entry, shared: nat, rest: seq<byte>) returns (chain: seq<byte>)
    requires LawfulLinks(k, c, e) && ValidCap(c, cap) && ValidDelegations(c, cap.delegations) && Authorises(cap, e)
    requires shared <= |cap.delegations| && AreaIncludesArea(SubspaceArea(e.subspace), GrantedArea(Prefix(cap, shared)))
    ensures EncodeChain(k, SubspaceArea(e.subspace), cap.delegations[shared..]) == Some(chain)
    ensures DecodeChain(k, c, Prefix(cap, shared), SubspaceArea(e.subspace), |cap.delegations| - shared, chain + rest)
      == Some((cap, rest))
  {
    ChainRoundTrip(k, c, e, cap, shared, SubspaceArea(e.subspace), rest);
    chain := EncodeChain(k, SubspaceArea(e.subspace), cap.delegations[shared..]).value;
  }

  lemma BodyFollows(k: Links, c: Scheme, prior: Prior, e: Entry, shared: nat, count: nat, input: seq<byte>,
                    begun: Cap, whole: Cap, rest: seq<byte>)
    requires c.isCommunal(e.namespaceId) && 0 < count && shared <= count && (prior.PriorOwned? ==> shared == 0)
    requires AppendShared(c, Cap(Write, e.namespaceId, e.subspace, []), PriorDelegations(prior), shared) == Some(begun)
    requires DecodeChain(k, c, begun, SubspaceArea(e.subspace), count - shared, input) == Some((whole, rest))
    ensures DecodeBody(k, c, prior, e, Marker(prior, shared), count, input) == Some((whole, rest))
  {}

  /** The chain starts from what the entry alone determines. */
  lemma BaseOfChain(c: Scheme, cap: Cap, e: Entry, shared: nat)
    requires ValidCap(c, cap) && Authorises(cap, e) && shared <= |cap.delegations|
    ensures c.isCommunal(e.namespaceId) && Prefix(cap, 0) == Cap(Write, e.namespaceId, e.subspace, [])
    ensures AreaIncludesArea(SubspaceArea(e.subspace), GrantedArea(Prefix(cap, shared)))
    ensures cap.delegations == [] ==> cap == Prefix(cap, 0)
  {
    ChainIsNested(c, cap, 0);
    ChainIsNested(c, cap, shared);
    ChainIsNested(c, Prefix(cap, shared), 0);
    assert Prefix(Prefix(cap, shared), 0) == Prefix(cap, 0);
  }

  lemma SharedTakenOver(c: Scheme, cap: Cap, prior: Prior)
    requires ValidCap(c, cap)
    ensures AppendShared(c, Prefix(cap, 0), PriorDelegations(prior), Shared(cap, prior)) == Some(Prefix(cap, Shared(cap, prior)))
  {
    match prior
    case PriorCommunal(other) => SharedRebuilds(c, cap, 0, Shared(cap, prior), other.delegations);
    case PriorOwned(_, ds) => SharedRebuilds(c, cap, 0, 0, ds);
  }

  // ---------------------------------------------------------------- the loops of the codec

  /** An encoding so far, continued by the encoding of the rest. */
  function Continued(out: seq<byte>, more: Option<seq<byte>>): Option<seq<byte>> {
    if more.None? then None else Some(out + more.value)
  }

  lemma ContinuedFurther(k: Links, out: seq<byte>, prev: Area, ds: seq<Delegation>)
    requires ds != []
    ensures Continued(out, EncodeChain(k, prev, ds)) ==
      if k.encode(prev, ds[0]).None? then None
      else Continued(out + k.encode(prev, ds[0]).value, EncodeChain(k, ds[0].area, ds[1..]))
  {
    var link, more := k.encode(prev, ds[0]), EncodeChain(k, ds[0].area, ds[1..]);
    if link.Some? && more.Some? { Regroup(out, link.value, more.value); }
  }

  /** Write the delegations from number `shared` on, each relative to the one written before. */
  method WriteDelegations(k: Links, start: Area, ds: seq<Delegation>, shared: nat) returns (r: Option<seq<byte>>)
    requires shared <= |ds|
    ensures r == EncodeChain(k, start, ds[shared..])
  {
    var out, prevArea := [], start;
    NothingWritten(k, start, ds[shared..]);
    for i := 0 to |ds|
      invariant i <= shared ==> out == [] && prevArea == start
      invariant i >= shared ==> EncodeChain(k, start, ds[shared..]) == Continued(out, EncodeChain(k, prevArea, ds[i..]))
    {
      if i < shared { continue; }
      assert ds[i..][0] == ds[i] && ds[i..][1..] == ds[i + 1..];
      ContinuedFurther(k, out, prevArea, ds[i..]);
      var link := k.encode(prevArea, ds[i]);
      if link.None? { return None; }
      prevArea := ds[i].area;
      out := out + link.value;
    }
    assert ds[|ds|..] == [];
    if shared == |ds| { return Some([]); }
    assert out + [] == out;
    return Some(out);
  }

  lemma NothingWritten(k: Links, start: Area, ds: seq<Delegation>)
    ensures EncodeChain(k, start, ds) == Continued([], EncodeChain(k, start, ds))
  {
    var more := EncodeChain(k, start, ds);
    if more.Some? { assert [] + more.value == more.value; }
  }

  method RelativeEncode(cap: CommunalCapability, prior: Prior, e: Entry) returns (r: Option<seq<byte>>)
    ensures r == EncodeCap(cap.c, cap.View(), prior, e)
  {
    if PriorMode(prior).Read? || cap.mode.Read? { return None; }
    var granted := cap.GetGrantedArea();
    if cap.namespace != e.namespaceId || !AreaIncludes(granted, e.subspace, e.path, e.timestamp) { return None; }
    var shared := 0;
    if prior.PriorCommunal? {
      shared := LongestCommonDelegationPrefixLength(cap.delegations, prior.cap.delegations);
    }
    var chain := WriteDelegations(LinksFor(cap.c, e), SubspaceArea(e.subspace), cap.delegations, shared);
    if chain.None? { return None; }
    return Some(EncodeNumbers(Marker(prior, shared), |cap.delegations|) + chain.value);
  }

  /** Append the first delegations of a prior capability. */
  method TakeOver(cap: CommunalCapability, ds: seq<Delegation>, howManyShared: nat) returns (ok: bool)
    requires cap.Valid()
    modifies cap
    ensures cap.Valid()
    ensures AppendShared(cap.c, old(cap.View()), ds, howManyShared) == if ok then Some(cap.View()) else None
  {
    ghost var goal := AppendShared(cap.c, cap.View(), ds, howManyShared);
    var left := howManyShared;
    assert ds[0..] == ds;
    for i := 0 to |ds|
      invariant cap.Valid() && goal == AppendShared(cap.c, cap.View(), ds[i..], left)
    {
      ok, left := TakeOverOne(cap, ds, i, left);
      if !ok { return; }
    }
    assert ds[|ds|..] == [];
    return true;
  }

  method TakeOverOne(cap: CommunalCapability, ds: seq<Delegation>, i: nat, left: nat) returns (ok: bool, left': nat)
    requires cap.Valid() && i < |ds|
    modifies cap
    ensures cap.Valid()
    ensures AppendShared(cap.c, old(cap.View()), ds[i..], left)
      == if ok then AppendShared(cap.c, cap.View(), ds[i + 1..], left') else None
  {
    ShareOne(cap.c, cap.View(), ds, i, left);
    if left == 0 { return true, 0; }
    var appended := cap.AppendExistingDelegation(ds[i]);
    return appended.Ok?, left - 1;
  }

  lemma ShareOne(c: Scheme, cap: Cap, ds: seq<Delegation>, i: nat, left: nat)
    requires i < |ds|
    ensures AppendShared(c, cap, ds[i..], left) ==
      if left == 0 then AppendShared(c, cap, ds[i + 1..], 0)
      else if Delegable(c, cap, ds[i]) then AppendShared(c, With(cap, ds[i]), ds[i + 1..], left - 1) else None
  {
    assert ds[i..][0] == ds[i] && ds[i..][1..] == ds[i + 1..];
  }

  /** Decode delegations and append each of them. */
  method ReadDelegations(k: Links, cap: CommunalCapability, start: Area, howMany: nat, input: seq<byte>)
      returns (r: Option<seq<byte>>)
    requires cap.Valid()
    modifies cap
    ensures cap.Valid()
    ensures DecodeChain(k, cap.c, old(cap.View()), start, howMany, input)
      == if r.Some? then Some((cap.View(), r.value)) else None
  {
    ghost var goal := DecodeChain(k, cap.c, cap.View(), start, howMany, input);
    var prevArea, rest := start, input;
    for i := 0 to howMany
      invariant cap.Valid() && goal == DecodeChain(k, cap.c, cap.View(), prevArea, howMany - i, rest)
    {
      var ok;
      ok, prevArea, rest := ReadDelegation(k, cap, prevArea, rest, howMany - i);
      if !ok { return None; }
    }
    return Some(rest);
  }

  method ReadDelegation(k: Links, cap: CommunalCapability, prev: Area, input: seq<byte>, ghost n: nat)
      returns (ok: bool, prev': Area, rest: seq<byte>)
    requires cap.Valid() && n > 0
    modifies cap
    ensures cap.Valid()
    ensures DecodeChain(k, cap.c, old(cap.View()), prev, n, input)
      == if ok then DecodeChain(k, cap.c, cap.View(), prev', n - 1, rest) else None
  {
    ReadOne(k, cap.c, cap.View(), prev, n, input);
    var d := k.decode(prev, input);
    if d.None? { return false, prev, input; }
    var appended := cap.AppendExistingDelegation(d.value.0);
    return appended.Ok?, d.value.0.area, d.value.1;
  }

  lemma ReadOne(k: Links, c: Scheme, cap: Cap, prev: Area, n: nat, input: seq<byte>)
    requires n > 0
    ensures DecodeChain(k, c, cap, prev, n, input) ==
      match k.decode(prev, input)
      case None => None
      case Some((d, rest)) => if Delegable(c, cap, d) then DecodeChain(k, c, With(cap, d), d.area, n - 1, rest) else None
  {}

  method RelativeDecode(c: Scheme, prior: Prior, e: Entry, input: seq<byte>)
      returns (r: Option<(CommunalCapability, seq<byte>)>)
    ensures r.Some? ==> fresh(r.value.0) && r.value.0.c == c && r.value.0.Valid()
    ensures DecodeCap(c, prior, e, input) == if r.Some? then Some((r.value.0.View(), r.value.1)) else None
  {
    var numbers := DecodeNumbers(input);
    if numbers.None? { return None; }
    r := ReadBody(LinksFor(c, e), c, prior, e, numbers.value.0.0, numbers.value.0.1, numbers.value.1);
  }

  method ReadBody(k: Links, c: Scheme, prior: Prior, e: Entry, marker: nat, count: nat, input: seq<byte>)
      returns (r: Option<(CommunalCapability, seq<byte>)>)
    ensures r.Some? ==> fresh(r.value.0) && r.value.0.c == c && r.value.0.Valid()
    ensures DecodeBody(k, c, prior, e, marker, count, input) == if r.Some? then Some((r.value.0.View(), r.value.1)) else None
  {
    if !c.isCommunal(e.namespaceId) { return None; }
    var cap := new CommunalCapability(c, Write, e.namespaceId, e.subspace);
    if count == 0 { return Some((cap, input)); }
    var howManyShared: nat := if marker == 0 then 0 else marker - 1;
    var rest := ReadRest(k, cap, PriorDelegations(prior), SubspaceArea(e.subspace), howManyShared, count, input);
    if rest.None? { return None; }
    return Some((cap, rest.value));
  }

  method ReadRest(k: Links, cap: CommunalCapability, ds: seq<Delegation>, start: Area, shared: nat, count: nat, input: seq<byte>)
      returns (r: Option<seq<byte>>)
    requires cap.Valid()
    modifies cap
    ensures cap.Valid()
    ensures DecodeRest(k, cap.c, old(cap.View()), ds, start, shared, count, input)
      == if r.Some? then Some((cap.View(), r.value)) else None
  {
    var taken := TakeOver(cap, ds, shared);
    if !taken || count < shared { return None; }
    r := ReadDelegations(k, cap, start, count - shared, input);
  }
}
