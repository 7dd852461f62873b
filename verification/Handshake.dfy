/** The three-message handshake: both parties hash every message into `h` and every shared key into `ck`. */
module Handshake {
  import opened Wrappers
  import opened ByteStrings
  import opened EncryptedStream

  type SecretKey(==, !new)
  type PublicKey(==, !new)

  /** Diffie-Hellman, hashing, key derivation and encryption, known by what they compute. */
  datatype Suite = Suite(
    pkWidth: nat, tagWidth: nat, nonceWidth: nat,
    dh: (SecretKey, PublicKey) -> PublicKey,
    publicOf: SecretKey -> PublicKey,
    encodePk: PublicKey -> seq<byte>,
    decodePk: seq<byte> -> Option<PublicKey>,
    hash: seq<byte> -> seq<byte>,
    hkdf: (seq<byte>, seq<byte>) -> (seq<byte>, seq<byte>),
    digestToKey: seq<byte> -> Aead,
    defaultPk: PublicKey, defaultKey: Aead)

  /** The exchange commutes, key encodings have one length and decode, and derived keys append lawful tags. */
  ghost predicate LawfulSuite(c: Suite) {
    && (forall a, b :: c.dh(a, c.publicOf(b)) == c.dh(b, c.publicOf(a)))
    && Canonic(c)
    && (forall d :: LawfulKey(c, c.digestToKey(d)))
  }

  ghost predicate LawfulKey(c: Suite, k: Aead) {
    Lawful(k) && k.tagWidth == c.tagWidth && k.nonceWidth == c.nonceWidth && !k.isTagPrepended
  }

  datatype HandshakeError = UnexpectedEndOfInput | DecryptionFailed

  function MixHash(c: Suite, h: seq<byte>, data: seq<byte>): seq<byte> {
    c.hash(h + data)
  }

  function ZeroNonceOf(c: Suite): seq<byte> {
    seq(c.nonceWidth, i => 0)
  }

  function SealKey(c: Suite, k: Aead, h: seq<byte>, pk: PublicKey): seq<byte> {
    k.encrypt(ZeroNonceOf(c), h, c.encodePk(pk))
  }

  /** The received buffer after it was decrypted where it is: the tag stays beside the text. */
  function Opened(k: Aead, msg: seq<byte>, plain: seq<byte>): seq<byte>
    requires |plain| + k.tagWidth == |msg|
  {
    if k.isTagPrepended then msg[..k.tagWidth] + plain else plain + msg[|plain|..]
  }

  /** The key that is decoded from the beginning of that buffer, wherever the text lies. */
  function KeyRead(c: Suite, k: Aead, h: seq<byte>, msg: seq<byte>): Option<PublicKey>
    requires |msg| >= c.pkWidth
  {
    var plain := k.decrypt(ZeroNonceOf(c), h, msg);
    if plain.None? || |plain.value| + k.tagWidth != |msg| then None
    else c.decodePk(Opened(k, msg, plain.value)[..c.pkWidth])
  }

  /** Only the encoding of a key is decoded to it. */
  ghost predicate Canonic(c: Suite) {
    && (forall pk :: |c.encodePk(pk)| == c.pkWidth && c.decodePk(c.encodePk(pk)) == Some(pk))
    && (forall b, pk :: c.decodePk(b) == Some(pk) ==> b == c.encodePk(pk))
  }

  /** A sealed key is read correctly if and only if the tag is appended, or the tag followed by the
      encoded key happens to begin with the encoded key. */
  lemma SealedKeyReadIff(c: Suite, k: Aead, h: seq<byte>, pk: PublicKey)
    requires Canonic(c) && Lawful(k) && k.tagWidth == c.tagWidth
    ensures var sealed := SealKey(c, k, h, pk);
      && |sealed| == c.pkWidth + c.tagWidth
      && (KeyRead(c, k, h, sealed) == Some(pk) <==>
        !k.isTagPrepended || (sealed[..k.tagWidth] + c.encodePk(pk))[..c.pkWidth] == c.encodePk(pk))
  {
    var sealed, encoded := SealKey(c, k, h, pk), c.encodePk(pk);
    assert k.decrypt(ZeroNonceOf(c), h, sealed) == Some(encoded);
    if !k.isTagPrepended { assert Opened(k, sealed, encoded)[..c.pkWidth] == encoded; }
  }

  /** With a tag in front, a key that does not begin as the tag does is never read. */
  lemma PrependedTagMisread(c: Suite, k: Aead, h: seq<byte>, pk: PublicKey)
    requires Canonic(c) && Lawful(k) && k.tagWidth == c.tagWidth && k.isTagPrepended && c.tagWidth > 0 && c.pkWidth > 0
    requires |SealKey(c, k, h, pk)| > 0 && SealKey(c, k, h, pk)[0] != c.encodePk(pk)[0]
    ensures KeyRead(c, k, h, SealKey(c, k, h, pk)) != Some(pk)
  {
    SealedKeyReadIff(c, k, h, pk);
    var sealed := SealKey(c, k, h, pk);
    assert (sealed[..k.tagWidth] + c.encodePk(pk))[..c.pkWidth][0] == sealed[0];
  }

  datatype Outcome = Outcome(h: seq<byte>, remoteStaticPk: PublicKey, aeadk1: Aead, aeadk2: Aead)

  // ---------------------------------------------------------------- the pattern

  /** What parties send and mix in: their ephemeral or static keys, and the keys they share. */
  datatype Step = E | S | EE | ES | SE

  /** The pattern XX: who knows nothing of the other at first learns the other's static key. */
  const XX: seq<seq<Step>> := [[E], [E, EE, S, ES], [S, SE]]

  datatype Parties = Parties(iniEphemeral: SecretKey, iniStatic: SecretKey, resEphemeral: SecretKey, resStatic: SecretKey)

  datatype Symmetric = Symmetric(h: seq<byte>, ck: seq<byte>, k: Aead)

  /** The key that both parties can compute. */
  function SharedKey(c: Suite, p: Parties, step: Step): PublicKey {
    match step
    case EE => c.dh(p.iniEphemeral, c.publicOf(p.resEphemeral))
    case ES => c.dh(p.iniEphemeral, c.publicOf(p.resStatic))
    case SE => c.dh(p.iniStatic, c.publicOf(p.resEphemeral))
    case E => c.defaultPk
    case S => c.defaultPk
  }

  /** What one step sends, and what becomes of the state that both parties keep. */
  function TakeStep(c: Suite, p: Parties, byInitiator: bool, step: Step, s: Symmetric): (Symmetric, seq<byte>) {
    match step
    case E =>
      var sent := c.encodePk(c.publicOf(if byInitiator then p.iniEphemeral else p.resEphemeral));
      (s.(h := c.hash(s.h + sent)), sent)
    case S =>
      var own := c.encodePk(c.publicOf(if byInitiator then p.iniStatic else p.resStatic));
      var sent := s.k.encrypt(ZeroNonceOf(c), s.h, own);
      (s.(h := c.hash(s.h + sent)), sent)
    case _ =>
      var (ck, k) := c.hkdf(s.ck, c.encodePk(SharedKey(c, p, step)));
      (s.(ck := ck, k := c.digestToKey(k)), [])
  }

  function TakeSteps(c: Suite, p: Parties, byInitiator: bool, steps: seq<Step>, s: Symmetric): (Symmetric, seq<byte>)
    decreases |steps|
  {
    if steps == [] then (s, [])
    else
      var (next, sent) := TakeStep(c, p, byInitiator, steps[0], s);
      var (last, more) := TakeSteps(c, p, byInitiator, steps[1..], next);
      (last, sent + more)
  }

  /** The three messages, and the state in the end. */
  function RunPattern(c: Suite, p: Parties, s: Symmetric): (Symmetric, seq<seq<byte>>) {
    var (s1, m1) := TakeSteps(c, p, true, XX[0], s);
    var (s2, m2) := TakeSteps(c, p, false, XX[1], s1);
    var (s3, m3) := TakeSteps(c, p, true, XX[2], s2);
    (s3, [m1, m2, m3])
  }

  /** The state before the first message. */
  function StartOf(c: Suite, protocolName: seq<byte>, prologue: seq<byte>): Symmetric {
    Symmetric(c.hash(c.hash(protocolName) + prologue), c.hash(protocolName), c.defaultKey)
  }

  ghost predicate InjectiveHash(c: Suite) {
    && (forall a, b :: c.hash(a) == c.hash(b) ==> a == b)
    && (forall a, b :: |c.hash(a)| == |c.hash(b)|)
  }

  ghost predicate InjectiveDerivation(c: Suite) {
    && (forall a, b, a', b' :: c.hkdf(a, b).0 == c.hkdf(a', b').0 ==> a == a' && b == b')
    && (forall d, d' :: c.digestToKey(d) == c.digestToKey(d') ==> d == d')
  }

  /** Hashing a text after a hash, and then recovering both. */
  lemma HashedApart(c: Suite, h: seq<byte>, a: seq<byte>, h': seq<byte>, a': seq<byte>)
    requires InjectiveHash(c) && |h| == |h'| && c.hash(h + a) == c.hash(h' + a')
    ensures h == h' && a == a'
  {
    Parts(h, a);
    Parts(h', a');
  }

  lemma OneStep(c: Suite, p: Parties, byInitiator: bool, step: Step, s: Symmetric)
    ensures TakeSteps(c, p, byInitiator, [step], s) == TakeStep(c, p, byInitiator, step, s)
  {
    var (next, sent) := TakeStep(c, p, byInitiator, step, s);
    assert [step][1..] == [] && sent + [] == sent;
  }

  /** The second message in full. */
  lemma SecondInFull(c: Suite, p: Parties, s: Symmetric)
    ensures var (s1, e) := TakeStep(c, p, false, E, s);
      var s2 := TakeStep(c, p, false, EE, s1).0;
      var (s3, sealed) := TakeStep(c, p, false, S, s2);
      TakeSteps(c, p, false, XX[1], s) == (TakeStep(c, p, false, ES, s3).0, e + sealed)
  {
    var (s1, e) := TakeStep(c, p, false, E, s);
    var s2 := TakeStep(c, p, false, EE, s1).0;
    var (s3, sealed) := TakeStep(c, p, false, S, s2);
    var s4 := TakeStep(c, p, false, ES, s3).0;
    assert XX[1][1..] == [EE, S, ES] && [EE, S, ES][1..] == [S, ES] && [S, ES][1..] == [ES];
    OneStep(c, p, false, ES, s3);
    assert TakeSteps(c, p, false, [S, ES], s2) == (s4, sealed) by { assert sealed + [] == sealed; }
    assert TakeSteps(c, p, false, [EE, S, ES], s1) == (s4, sealed) by { assert [] + sealed == sealed; }
  }

  lemma FirstInFull(c: Suite, p: Parties, s: Symmetric)
    ensures TakeSteps(c, p, true, XX[0], s) == TakeStep(c, p, true, E, s)
  {
    OneStep(c, p, true, E, s);
  }

  lemma ThirdInFull(c: Suite, p: Parties, s: Symmetric)
    ensures var (s1, sealed) := TakeStep(c, p, true, S, s);
      TakeSteps(c, p, true, XX[2], s) == (TakeStep(c, p, true, SE, s1).0, sealed)
  {
    var (s1, sealed) := TakeStep(c, p, true, S, s);
    var s2 := TakeStep(c, p, true, SE, s1).0;
    assert XX[2][1..] == [SE] && [SE][1..] == [];
    OneStep(c, p, true, SE, s1);
    assert sealed + [] == sealed;
  }

  /** Three messages are hashed one after the other, the second one in two parts. */
  ghost predicate Hashed(c: Suite, h: seq<byte>, ms: seq<seq<byte>>, last: seq<byte>) {
    exists e2, sealed2 :: HashedParts(c, h, ms, e2, sealed2, last)
  }

  ghost predicate HashedParts(c: Suite, h: seq<byte>, ms: seq<seq<byte>>, e2: seq<byte>, sealed2: seq<byte>, last: seq<byte>) {
    && |ms| == 3 && ms[1] == e2 + sealed2
    && last == c.hash(c.hash(c.hash(c.hash(h + ms[0]) + e2) + sealed2) + ms[2])
  }

  lemma RunIsHashed(c: Suite, p: Parties, s: Symmetric)
    ensures Hashed(c, s.h, RunPattern(c, p, s).1, RunPattern(c, p, s).0.h)
  {
    var (s1, m1) := TakeSteps(c, p, true, XX[0], s);
    FirstInFull(c, p, s);
    SecondInFull(c, p, s1);
    var (s2, e) := TakeStep(c, p, false, E, s1);
    var s3 := TakeStep(c, p, false, EE, s2).0;
    var (s4, sealed) := TakeStep(c, p, false, S, s3);
    var s5 := TakeStep(c, p, false, ES, s4).0;
    ThirdInFull(c, p, s5);
    assert HashedParts(c, s.h, RunPattern(c, p, s).1, e, sealed, RunPattern(c, p, s).0.h);
  }

  lemma SameMessages(c: Suite, h: seq<byte>, ms: seq<seq<byte>>, h': seq<byte>, ms': seq<seq<byte>>, last: seq<byte>)
    requires InjectiveHash(c) && |h| == |h'| && Hashed(c, h, ms, last) && Hashed(c, h', ms', last)
    ensures h == h' && ms == ms'
  {
    var e2, sealed2 :| HashedParts(c, h, ms, e2, sealed2, last);
    var e2', sealed2' :| HashedParts(c, h', ms', e2', sealed2', last);
    Unwind(c, h, ms[0], e2, sealed2, ms[2], h', ms'[0], e2', sealed2', ms'[2]);
  }

  lemma StartsAgree(c: Suite, protocolName: seq<byte>, prologue: seq<byte>, ms: seq<seq<byte>>,
                    protocolName': seq<byte>, prologue': seq<byte>, ms': seq<seq<byte>>, last: seq<byte>)
    requires InjectiveHash(c)
    requires Hashed(c, StartOf(c, protocolName, prologue).h, ms, last) && Hashed(c, StartOf(c, protocolName', prologue').h, ms', last)
    ensures protocolName == protocolName' && prologue == prologue' && ms == ms'
  {
    SameMessages(c, StartOf(c, protocolName, prologue).h, ms, StartOf(c, protocolName', prologue').h, ms', last);
    HashedApart(c, c.hash(protocolName), prologue, c.hash(protocolName'), prologue');
  }

  /** What is derived along the way. */
  lemma ChainOf(c: Suite, p: Parties, s: Symmetric)
    ensures RunPattern(c, p, s).0.ck == c.hkdf(c.hkdf(c.hkdf(s.ck, c.encodePk(SharedKey(c, p, EE))).0,
      c.encodePk(SharedKey(c, p, ES))).0, c.encodePk(SharedKey(c, p, SE))).0
  {
    var s1 := TakeSteps(c, p, true, XX[0], s).0;
    FirstInFull(c, p, s);
    SecondInFull(c, p, s1);
    ThirdInFull(c, p, TakeSteps(c, p, false, XX[1], s1).0);
  }

  lemma Unwind(c: Suite, h: seq<byte>, a: seq<byte>, b: seq<byte>, d: seq<byte>, e: seq<byte>,
               h': seq<byte>, a': seq<byte>, b': seq<byte>, d': seq<byte>, e': seq<byte>)
    requires InjectiveHash(c) && |h| == |h'|
    requires c.hash(c.hash(c.hash(c.hash(h + a) + b) + d) + e) == c.hash(c.hash(c.hash(c.hash(h' + a') + b') + d') + e')
    ensures h == h' && a == a' && b == b' && d == d' && e == e'
  {
    var h1, h1' := c.hash(h + a), c.hash(h' + a');
    var h2, h2' := c.hash(h1 + b), c.hash(h1' + b');
    HashedApart(c, c.hash(h2 + d), e, c.hash(h2' + d'), e');
    HashedApart(c, h2, d, h2', d');
    HashedApart(c, h1, b, h1', b');
    HashedApart(c, h, a, h', a');
  }

  /** The hash identifies the whole exchange: two runs that end with the same one had the same protocol
      name and prologue, and exchanged the same three messages. */
  lemma HashIdentifies(c: Suite, p: Parties, protocolName: seq<byte>, prologue: seq<byte>,
                       p': Parties, protocolName': seq<byte>, prologue': seq<byte>)
    requires InjectiveHash(c) && Canonic(c)
    requires RunPattern(c, p, StartOf(c, protocolName, prologue)).0.h == RunPattern(c, p', StartOf(c, protocolName', prologue')).0.h
    ensures protocolName == protocolName' && prologue == prologue'
    ensures RunPattern(c, p, StartOf(c, protocolName, prologue)).1 == RunPattern(c, p', StartOf(c, protocolName', prologue')).1
  {
    var s, s' := StartOf(c, protocolName, prologue), StartOf(c, protocolName', prologue');
    RunIsHashed(c, p, s);
    RunIsHashed(c, p', s');
    StartsAgree(c, protocolName, prologue, RunPattern(c, p, s).1, protocolName', prologue', RunPattern(c, p', s').1, RunPattern(c, p, s).0.h);
  }

  /** The keys identify what was shared: two runs that end with the same one for the initiator to encrypt
      with had the same protocol name, and shared the same three keys. */
  lemma KeysIdentify(c: Suite, p: Parties, protocolName: seq<byte>, prologue: seq<byte>,
                     p': Parties, protocolName': seq<byte>, prologue': seq<byte>)
    requires InjectiveHash(c) && Canonic(c) && InjectiveDerivation(c)
    requires c.digestToKey(c.hkdf(RunPattern(c, p, StartOf(c, protocolName, prologue)).0.ck, []).0)
      == c.digestToKey(c.hkdf(RunPattern(c, p', StartOf(c, protocolName', prologue')).0.ck, []).0)
    ensures protocolName == protocolName'
    ensures forall step | step in {EE, ES, SE} :: SharedKey(c, p, step) == SharedKey(c, p', step)
  {
    ChainOf(c, p, StartOf(c, protocolName, prologue));
    ChainOf(c, p', StartOf(c, protocolName', prologue'));
    forall step ensures c.encodePk(SharedKey(c, p, step)) == c.encodePk(SharedKey(c, p', step)) ==> SharedKey(c, p, step) == SharedKey(c, p', step) {
      assert c.decodePk(c.encodePk(SharedKey(c, p, step))) == Some(SharedKey(c, p, step));
    }
  }

  class State {
    const c: Suite
    const esk: SecretKey
    const epk: PublicKey
    const ssk: SecretKey
    const spk: PublicKey
    var h: seq<byte>
    var ck: seq<byte>
    var repk: PublicKey
    var k: Aead
    var rspk: PublicKey

    ghost function Sym(): Symmetric
      reads this
    {
      Symmetric(h, ck, k)
    }

    ghost predicate KeysMatch()
      reads this
    {
      epk == c.publicOf(esk) && spk == c.publicOf(ssk)
    }

    constructor (c: Suite, esk: SecretKey, epk: PublicKey, ssk: SecretKey, spk: PublicKey,
                 protocolName: seq<byte>, prologue: seq<byte>)
      ensures this.c == c && this.esk == esk && this.epk == epk && this.ssk == ssk && this.spk == spk
      ensures Sym() == StartOf(c, protocolName, prologue)
    {
      this.c, this.esk, this.epk, this.ssk, this.spk := c, esk, epk, ssk, spk;
      ck := c.hash(protocolName);
      repk, k, rspk := c.defaultPk, c.defaultKey, c.defaultPk;
      h := MixHash(c, c.hash(protocolName), prologue);
    }

    method MixKey(input: PublicKey)
      modifies this`ck, this`k
      ensures (ck, k) == (c.hkdf(old(ck), c.encodePk(input)).0, c.digestToKey(c.hkdf(old(ck), c.encodePk(input)).1))
    {
      var (newCk, newK) := c.hkdf(ck, c.encodePk(input));
      ck, k := newCk, c.digestToKey(newK);
    }

    /** Send the static key, encrypted with the hash so far as additional data. */
    method SendStatic() returns (msg: seq<byte>)
      modifies this`h
      ensures msg == SealKey(c, k, old(h), spk) && h == MixHash(c, old(h), msg)
    {
      msg := SealKey(c, k, h, spk);
      h := MixHash(c, h, msg);
    }

    /** Receive the static key of the peer. */
    method ReceiveStatic(p: seq<byte>) returns (r: Result<seq<byte>, HandshakeError>)
      modifies this`h, this`rspk
      ensures r.Ok? ==> |p| >= c.pkWidth + c.tagWidth && r.value == p[c.pkWidth + c.tagWidth..]
      ensures r.Ok? ==> h == MixHash(c, old(h), p[..c.pkWidth + c.tagWidth])
      ensures |p| >= c.pkWidth + c.tagWidth ==>
        var read := KeyRead(c, k, old(h), p[..c.pkWidth + c.tagWidth]);
        (r.Ok? <==> read.Some?) && (r.Ok? ==> rspk == read.value)
    {
      var n := c.pkWidth + c.tagWidth;
      if |p| < n { return Err(UnexpectedEndOfInput); }
      var oldH, msg := h, p[..n];
      h := MixHash(c, h, msg);
      var plain := k.decrypt(ZeroNonceOf(c), oldH, msg);
      if plain.None? || |plain.value| + k.tagWidth != |msg| { return Err(DecryptionFailed); }
      var pk := c.decodePk(Opened(k, msg, plain.value)[..c.pkWidth]);
      if pk.None? { return Err(DecryptionFailed); }
      rspk := pk.value;
      return Ok(p[n..]);
    }

    /** Receive the ephemeral key of the peer. */
    method ReceiveEphemeral(p: seq<byte>) returns (r: Result<seq<byte>, HandshakeError>)
      modifies this`h, this`repk
      ensures r.Ok? <==> |p| >= c.pkWidth && c.decodePk(p[..c.pkWidth]).Some?
      ensures r.Ok? ==> r.value == p[c.pkWidth..] && repk == c.decodePk(p[..c.pkWidth]).value
      ensures r.Ok? ==> h == MixHash(c, old(h), p[..c.pkWidth])
    {
      if |p| < c.pkWidth { return Err(UnexpectedEndOfInput); }
      var pk := c.decodePk(p[..c.pkWidth]);
      if pk.None? { return Err(DecryptionFailed); }
      repk := pk.value;
      h := MixHash(c, h, p[..c.pkWidth]);
      return Ok(p[c.pkWidth..]);
    }

    method IniWriteFirstMessage() returns (msg: seq<byte>)
      modifies this`h
      ensures msg == c.encodePk(epk) && h == MixHash(c, old(h), msg)
    {
      msg := c.encodePk(epk);
      h := MixHash(c, h, msg);
    }

    method ResReadFirstMessage(p: seq<byte>) returns (r: Result<seq<byte>, HandshakeError>)
      modifies this`h, this`repk
      ensures r.Ok? <==> |p| >= c.pkWidth && c.decodePk(p[..c.pkWidth]).Some?
      ensures r.Ok? ==> r.value == p[c.pkWidth..] && repk == c.decodePk(p[..c.pkWidth]).value
      ensures r.Ok? ==> h == MixHash(c, old(h), p[..c.pkWidth])
    {
      r := ReceiveEphemeral(p);
    }

    method ResWriteSecondMessage() returns (msg: seq<byte>)
      modifies this`h, this`ck, this`k
      ensures var (ck1, k1) := c.hkdf(old(ck), c.encodePk(c.dh(esk, repk)));
        var h1 := MixHash(c, old(h), c.encodePk(epk));
        var sealed := SealKey(c, c.digestToKey(k1), h1, spk);
        var (ck2, k2) := c.hkdf(ck1, c.encodePk(c.dh(ssk, repk)));
        msg == c.encodePk(epk) + sealed && h == MixHash(c, h1, sealed) && ck == ck2 && k == c.digestToKey(k2)
    {
      var e := c.encodePk(epk);
      h := MixHash(c, h, e);
      MixKey(c.dh(esk, repk));
      var s := SendStatic();
      MixKey(c.dh(ssk, repk));
      msg := e + s;
    }

    method IniReadSecondMessage(p: seq<byte>) returns (r: Result<seq<byte>, HandshakeError>)
      modifies this`h, this`ck, this`k, this`repk, this`rspk
      ensures r.Ok? ==> |p| >= c.pkWidth + c.pkWidth + c.tagWidth && c.decodePk(p[..c.pkWidth]) == Some(repk)
      ensures r.Ok? ==> SecondRead(old(h), old(ck), p, r.value)
      ensures SecondReadable(old(h), old(ck), p) ==> r.Ok?
    {
      r := ReceiveEphemeral(p);
      if r.Err? { return; }
      MixKey(c.dh(esk, repk));
      r := ReceiveStatic(r.value);
      if r.Err? { return; }
      MixKey(c.dh(esk, rspk));
    }

    /** The second message can be read. */
    ghost predicate SecondReadable(h0: seq<byte>, ck0: seq<byte>, p: seq<byte>) {
      var n, m := c.pkWidth, c.pkWidth + c.tagWidth;
      && |p| >= n + m && c.decodePk(p[..n]).Some?
      && var k1 := c.digestToKey(c.hkdf(ck0, c.encodePk(c.dh(esk, c.decodePk(p[..n]).value))).1);
      KeyRead(c, k1, MixHash(c, h0, p[..n]), p[n..][..m]).Some?
    }

    /** What reading it leads to. */
    ghost predicate SecondRead(h0: seq<byte>, ck0: seq<byte>, p: seq<byte>, rest: seq<byte>)
      reads this
    {
      SecondReadable(h0, ck0, p) &&
      var n, m := c.pkWidth, c.pkWidth + c.tagWidth;
      var (ck1, k1) := c.hkdf(ck0, c.encodePk(c.dh(esk, c.decodePk(p[..n]).value)));
      var h1 := MixHash(c, h0, p[..n]);
      && repk == c.decodePk(p[..n]).value && KeyRead(c, c.digestToKey(k1), h1, p[n..][..m]) == Some(rspk)
      && h == MixHash(c, h1, p[n..][..m]) && rest == p[n..][m..]
      && (ck, k) == (c.hkdf(ck1, c.encodePk(c.dh(esk, rspk))).0, c.digestToKey(c.hkdf(ck1, c.encodePk(c.dh(esk, rspk))).1))
    }

    method IniWriteThirdMessage() returns (msg: seq<byte>)
      modifies this`h, this`ck, this`k
      ensures msg == SealKey(c, old(k), old(h), spk) && h == MixHash(c, old(h), msg)
      ensures (ck, k) == (c.hkdf(old(ck), c.encodePk(c.dh(ssk, repk))).0, c.digestToKey(c.hkdf(old(ck), c.encodePk(c.dh(ssk, repk))).1))
    {
      msg := SendStatic();
      MixKey(c.dh(ssk, repk));
    }

    method ResReadThirdMessage(p: seq<byte>) returns (r: Result<seq<byte>, HandshakeError>)
      modifies this`h, this`ck, this`k, this`rspk
      ensures r.Ok? ==> |p| >= c.pkWidth + c.tagWidth && r.value == p[c.pkWidth + c.tagWidth..]
      ensures r.Ok? ==> h == MixHash(c, old(h), p[..c.pkWidth + c.tagWidth])
      ensures r.Ok? ==> (ck, k) == (c.hkdf(old(ck), c.encodePk(c.dh(esk, rspk))).0, c.digestToKey(c.hkdf(old(ck), c.encodePk(c.dh(esk, rspk))).1))
      ensures |p| >= c.pkWidth + c.tagWidth ==>
        var read := KeyRead(c, old(k), old(h), p[..c.pkWidth + c.tagWidth]);
        (r.Ok? <==> read.Some?) && (r.Ok? ==> rspk == read.value)
    {
      r := ReceiveStatic(p);
      if r.Err? { return; }
      MixKey(c.dh(esk, rspk));
    }

    method Finalise() returns (o: Outcome)
      ensures o == Outcome(h, rspk, c.digestToKey(c.hkdf(ck, []).0), c.digestToKey(c.hkdf(ck, []).1))
    {
      var (k1, k2) := c.hkdf(ck, []);
      o := Outcome(h, rspk, c.digestToKey(k1), c.digestToKey(k2));
    }
  }

  /** What a party ends up with: the transcript hash, the peer's static key, and its two keys. */
  datatype Session = Session(h: seq<byte>, peer: PublicKey, encryptWith: Aead, decryptWith: Aead)

  function SessionOf(isInitiator: bool, o: Outcome): Session {
    if isInitiator then Session(o.h, o.remoteStaticPk, o.aeadk1, o.aeadk2)
    else Session(o.h, o.remoteStaticPk, o.aeadk2, o.aeadk1)
  }

  ghost predicate Prepared(ini: State, res: State)
    reads ini, res
  {
    && ini != res && ini.c == res.c && LawfulSuite(ini.c) && ini.KeysMatch() && res.KeysMatch()
    && ini.Sym() == res.Sym()
  }

  ghost function PartiesOf(ini: State, res: State): Parties {
    Parties(ini.esk, ini.ssk, res.esk, res.ssk)
  }

  /** A text and its two parts. */
  lemma Parts(a: seq<byte>, b: seq<byte>)
    ensures (a + b)[..|a|] == a && (a + b)[|a|..] == b && b[..|b|] == b && b[|b|..] == []
  {}

  /** The first message gives the responder the initiator's ephemeral key. */
  method FirstMessage(ini: State, res: State) returns (ghost sent: seq<byte>)
    requires Prepared(ini, res)
    modifies ini, res
    ensures Prepared(ini, res) && res.repk == ini.epk
    ensures (ini.Sym(), sent) == TakeSteps(ini.c, PartiesOf(ini, res), true, XX[0], old(ini.Sym()))
  {
    FirstInFull(ini.c, PartiesOf(ini, res), ini.Sym());
    var msg := ini.IniWriteFirstMessage();
    sent := msg;
    Parts(msg, []);
    assert msg + [] == msg;
    var read := res.ResReadFirstMessage(msg);
  }

  /** The second one gives the initiator both keys of the responder, and both share a new key. */
  method SecondMessage(ini: State, res: State) returns (ghost sent: seq<byte>)
    requires Prepared(ini, res) && res.repk == ini.epk
    modifies ini, res
    ensures Prepared(ini, res) && res.repk == ini.epk && ini.repk == res.epk
    ensures ini.rspk == res.spk && LawfulKey(ini.c, ini.k)
    ensures (ini.Sym(), sent) == TakeSteps(ini.c, PartiesOf(ini, res), false, XX[1], old(ini.Sym()))
  {
    ghost var c, h0, ck0 := ini.c, res.h, res.ck;
    SecondInFull(c, PartiesOf(ini, res), res.Sym());
    var msg := res.ResWriteSecondMessage();
    sent := msg;
    ghost var e := c.encodePk(res.epk);
    ghost var k1 := c.digestToKey(c.hkdf(ck0, c.encodePk(c.dh(res.esk, res.repk))).1);
    ghost var sealed := SealKey(c, k1, MixHash(c, h0, e), res.spk);
    Parts(e, sealed);
    assert LawfulKey(c, k1);
    SealedKeyReadIff(c, k1, MixHash(c, h0, e), res.spk);
    assert c.dh(ini.esk, res.epk) == c.dh(res.esk, ini.epk);
    assert ini.SecondReadable(h0, ck0, msg);
    var read := ini.IniReadSecondMessage(msg);
    assert c.dh(ini.esk, ini.rspk) == c.dh(res.ssk, res.repk);
  }

  /** The third one gives the responder the initiator's static key. */
  method ThirdMessage(ini: State, res: State) returns (ghost sent: seq<byte>)
    requires Prepared(ini, res) && res.repk == ini.epk && ini.repk == res.epk
    requires ini.rspk == res.spk && LawfulKey(ini.c, ini.k)
    modifies ini, res
    ensures Prepared(ini, res) && ini.rspk == res.spk && res.rspk == ini.spk
    ensures (ini.Sym(), sent) == TakeSteps(ini.c, PartiesOf(ini, res), true, XX[2], old(ini.Sym()))
  {
    ghost var c, h0, k0 := ini.c, ini.h, ini.k;
    ThirdInFull(c, PartiesOf(ini, res), ini.Sym());
    var msg := ini.IniWriteThirdMessage();
    sent := msg;
    assert msg == SealKey(c, k0, h0, ini.spk);
    SealedKeyReadIff(c, k0, h0, ini.spk);
    Parts(msg, []);
    assert msg + [] == msg;
    var read := res.ResReadThirdMessage(msg);
    assert c.dh(ini.ssk, ini.repk) == c.dh(res.esk, res.rspk);
  }

  /** Over an honest channel both parties agree on the transcript, each holds the static key of the
      other, and what one encrypts with the other decrypts with. */
  method RunHandshake(c: Suite, iniEsk: SecretKey, iniSsk: SecretKey, resEsk: SecretKey, resSsk: SecretKey,
                      protocolName: seq<byte>, prologue: seq<byte>)
      returns (ini: Session, res: Session, ghost messages: seq<seq<byte>>)
    requires LawfulSuite(c)
    ensures ini.h == res.h
    ensures ini.peer == c.publicOf(resSsk) && res.peer == c.publicOf(iniSsk)
    ensures ini.encryptWith == res.decryptWith && ini.decryptWith == res.encryptWith
    ensures LawfulKey(c, ini.encryptWith) && LawfulKey(c, ini.decryptWith)
    ensures var (last, sent) := RunPattern(c, Parties(iniEsk, iniSsk, resEsk, resSsk), StartOf(c, protocolName, prologue));
      && messages == sent && ini.h == last.h
      && ini.encryptWith == c.digestToKey(c.hkdf(last.ck, []).0) && ini.decryptWith == c.digestToKey(c.hkdf(last.ck, []).1)
  {
    var a := new State(c, iniEsk, c.publicOf(iniEsk), iniSsk, c.publicOf(iniSsk), protocolName, prologue);
    var b := new State(c, resEsk, c.publicOf(resEsk), resSsk, c.publicOf(resSsk), protocolName, prologue);
    ghost var m1 := FirstMessage(a, b);
    ghost var m2 := SecondMessage(a, b);
    ghost var m3 := ThirdMessage(a, b);
    messages := [m1, m2, m3];
    var o1 := a.Finalise();
    var o2 := b.Finalise();
    ini, res := SessionOf(true, o1), SessionOf(false, o2);
  }
}
