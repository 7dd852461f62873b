/** The encrypted transport: bytes are collected in chunks, and each chunk is sent as an encrypted
    length followed by the encrypted chunk, under consecutive nonces. */
module EncryptedStream {
  import opened Wrappers
  import opened ByteStrings
  import opened KeyCodec

  const CHUNK: nat := 4096

  // ---------------------------------------------------------------- authenticated encryption

  /** An encryption key, known by what it does to a nonce, additional data, and a text. */
  datatype Aead = Aead(
    tagWidth: nat, nonceWidth: nat, isTagPrepended: bool,
    encrypt: (seq<byte>, seq<byte>, seq<byte>) -> seq<byte>,
    decrypt: (seq<byte>, seq<byte>, seq<byte>) -> Option<seq<byte>>)

  /** The laws: ciphertexts are longer by the tag, and decryption inverts encryption. */
  ghost predicate Lawful(key: Aead) {
    forall nonce, ad, plain ::
      |key.encrypt(nonce, ad, plain)| == |plain| + key.tagWidth
      && key.decrypt(nonce, ad, key.encrypt(nonce, ad, plain)) == Some(plain)
  }

  function Offset(key: Aead): nat {
    if key.isTagPrepended then key.tagWidth else 0
  }

  /** Where the plaintext lies in a buffer with space for the tag. */
  function PlainPart(key: Aead, buf: seq<byte>): seq<byte>
    requires |buf| >= key.tagWidth
  {
    buf[Offset(key)..Offset(key) + |buf| - key.tagWidth]
  }

  method Overwrite(buf: array<byte>, from: nat, bytes: seq<byte>)
    requires from + |bytes| <= buf.Length
    modifies buf
    ensures buf[..from] == old(buf[..from]) && buf[from..from + |bytes|] == bytes
    ensures buf[from + |bytes|..] == old(buf[from + |bytes|..])
  {
    forall i | 0 <= i < |bytes| { buf[from + i] := bytes[i]; }
  }

  method EncryptInPlace(key: Aead, nonce: array<byte>, ad: seq<byte>, buf: array<byte>, len: nat)
    requires Lawful(key) && key.tagWidth <= len <= buf.Length && nonce != buf
    modifies buf
    ensures buf[..len] == key.encrypt(nonce[..], ad, PlainPart(key, old(buf[..len])))
    ensures buf[len..] == old(buf[len..])
  {
    Overwrite(buf, 0, key.encrypt(nonce[..], ad, PlainPart(key, buf[..len])));
  }

  method DecryptInPlace(key: Aead, nonce: array<byte>, ad: seq<byte>, buf: array<byte>, len: nat) returns (ok: bool)
    requires key.tagWidth <= len <= buf.Length && nonce != buf
    modifies buf
    ensures var r := key.decrypt(nonce[..], ad, old(buf[..len]));
      ok == (r.Some? && |r.value| == len - key.tagWidth)
    ensures ok ==> PlainPart(key, buf[..len]) == key.decrypt(nonce[..], ad, old(buf[..len])).value
  {
    var r := key.decrypt(nonce[..], ad, buf[..len]);
    if r.None? || |r.value| != len - key.tagWidth { return false; }
    Overwrite(buf, Offset(key), r.value);
    return true;
  }

  // ---------------------------------------------------------------- nonces

  lemma {:induction false} BigEndianOfValue(b: seq<byte>)
    ensures BigEndian(FromBigEndian(b), |b|) == b
  {
    if b != [] {
      var init, last := b[..|b| - 1], b[|b| - 1];
      BigEndianOfValue(init);
      assert FromBigEndian(b) / 256 == FromBigEndian(init) && FromBigEndian(b) % 256 == last;
      assert b == init + [last];
    }
  }

  predicate Succeeds(x: int, y: int) {
    x == y + 1
  }

  /** `next` counts one further than `b`: the bytes from `j` on wrapped around, the one before was incremented. */
  predicate Carried(b: seq<byte>, next: seq<byte>, j: nat) {
    && |b| == |next| && 0 < j <= |b| && next[..j - 1] == b[..j - 1] && Succeeds(next[j - 1], b[j - 1])
    && forall i | j <= i < |b| :: b[i] == 255 && next[i] == 0
  }

  lemma {:induction false} CarriedCounts(b: seq<byte>, next: seq<byte>, j: nat)
    requires Carried(b, next, j)
    ensures FromBigEndian(next) == FromBigEndian(b) + 1
    decreases |b|
  {
    var n := |b| - 1;
    if j == |b| {
      assert next[..n] == b[..n];
    } else {
      assert next[..n][..j - 1] == next[..j - 1] == b[..j - 1] == b[..n][..j - 1];
      CarriedCounts(b[..n], next[..n], j);
    }
  }

  lemma {:induction false} AllMaxValue(b: seq<byte>)
    requires forall i | 0 <= i < |b| :: b[i] == 255
    ensures FromBigEndian(b) == Pow256(|b|) - 1
  {
    if b != [] { AllMaxValue(b[..|b| - 1]); }
  }

  /** Count up in place, from the last byte on; the error means that the nonce wrapped around. */
  method IncrementNonce(nonce: array<byte>) returns (ok: bool)
    modifies nonce
    ensures ok <==> old(FromBigEndian(nonce[..])) + 1 < Pow256(nonce.Length)
    ensures ok ==> FromBigEndian(nonce[..]) == old(FromBigEndian(nonce[..])) + 1
    ensures !ok ==> forall i | 0 <= i < nonce.Length :: nonce[i] == 0
  {
    ghost var was := nonce[..];
    for i := 0 to nonce.Length
      invariant forall k | 0 <= k < nonce.Length - i :: nonce[k] == was[k]
      invariant forall k | nonce.Length - i <= k < nonce.Length :: was[k] == 255 && nonce[k] == 0
    {
      var j := nonce.Length - (i + 1);
      if nonce[j] < 255 {
        nonce[j] := nonce[j] + 1;
        assert nonce[..][..j] == was[..j];
        assert Carried(was, nonce[..], j + 1);
        CarriedCounts(was, nonce[..], j + 1);
        FromBigEndianBound(nonce[..]);
        return true;
      }
      nonce[j] := 0;
    }
    AllMaxValue(was);
    return false;
  }

  function NonceOf(key: Aead, n: nat): seq<byte> {
    BigEndian(n, key.nonceWidth)
  }

  /** Calls with different numbers use different nonces. */
  lemma NoncesDiffer(key: Aead, m: nat, n: nat)
    requires m < n < Pow256(key.nonceWidth)
    ensures NonceOf(key, m) != NonceOf(key, n)
  {
    BigEndianRoundTrip(m, key.nonceWidth);
    BigEndianRoundTrip(n, key.nonceWidth);
  }

  // ---------------------------------------------------------------- the wire

  /** The encryption of call number `n`. */
  function Sealed(key: Aead, n: nat, plain: seq<byte>): seq<byte> {
    key.encrypt(NonceOf(key, n), [], plain)
  }

  function Header(len: nat): seq<byte> {
    BigEndian(len, 2)
  }

  /** A chunk on the wire takes two calls. */
  function Frame(key: Aead, n: nat, chunk: seq<byte>): seq<byte> {
    Sealed(key, n, Header(|chunk|)) + Sealed(key, n + 1, chunk)
  }

  /** The frames of some chunks, the first one under nonce `n`. */
  function Frames(key: Aead, n: nat, chunks: seq<seq<byte>>): seq<byte>
    decreases |chunks|
  {
    if chunks == [] then []
    else Frame(key, n, chunks[0]) + Frames(key, n + 2, chunks[1..])
  }

  function ClosingHeader(key: Aead, n: nat): seq<byte> {
    Sealed(key, n, Header(0))
  }

  /** All of a stream from nonce `n` on: frames, and the header that announces an empty chunk. */
  function Stream(key: Aead, n: nat, chunks: seq<seq<byte>>): seq<byte> {
    Frames(key, n, chunks) + ClosingHeader(key, n + 2 * |chunks|)
  }

  predicate ValidChunks(chunks: seq<seq<byte>>) {
    forall i | 0 <= i < |chunks| :: 0 < |chunks[i]| <= CHUNK
  }

  lemma {:induction false} FramesSnoc(key: Aead, n: nat, chunks: seq<seq<byte>>, chunk: seq<byte>)
    ensures Frames(key, n, chunks + [chunk]) == Frames(key, n, chunks) + Frame(key, n + 2 * |chunks|, chunk)
    decreases |chunks|
  {
    var all := chunks + [chunk];
    if chunks == [] {
      assert all[0] == chunk && all[1..] == [];
      assert Frames(key, n, all) == Frame(key, n, chunk) + [];
    } else {
      var first, rest := Frame(key, n, chunks[0]), Frames(key, n + 2, chunks[1..]);
      assert all[0] == chunks[0] && all[1..] == chunks[1..] + [chunk];
      FramesSnoc(key, n + 2, chunks[1..], chunk);
      Regroup(first, rest, Frame(key, n + 2 * |chunks|, chunk));
    }
  }

  lemma HeaderRoundTrip(len: nat)
    requires len < 0x1_0000
    ensures FromBigEndian(Header(len)) == len
  {
    assert Pow256(2) == 256 * Pow256(1) == 256 * 256;
    BigEndianRoundTrip(len, 2);
  }

  /** One encryption: its nonce, and the text. */
  datatype Sealing = Sealing(nonce: seq<byte>, plain: seq<byte>)

  /** All encryptions of a stream in order: for each chunk its length in two bytes, the higher one first, and
      the chunk itself, and in the end a length of zero. */
  function SealingsOf(key: Aead, n: nat, chunks: seq<seq<byte>>): seq<Sealing>
    decreases |chunks|
  {
    if chunks == [] then [Sealing(NonceOf(key, n), [0, 0])]
    else
      [Sealing(NonceOf(key, n), [|chunks[0]| / 256 % 256, |chunks[0]| % 256]), Sealing(NonceOf(key, n + 1), chunks[0])]
      + SealingsOf(key, n + 2, chunks[1..])
  }

  function Encrypted(key: Aead, sealings: seq<Sealing>): seq<byte> {
    if sealings == [] then [] else key.encrypt(sealings[0].nonce, [], sealings[0].plain) + Encrypted(key, sealings[1..])
  }

  lemma HeaderDigits(len: nat)
    ensures Header(len) == [len / 256 % 256, len % 256]
  {
    assert BigEndian(len / 256, 1) == BigEndian(len / 256 / 256, 0) + [len / 256 % 256];
  }

  /** A stream is nothing but these encryptions. */
  lemma {:induction false} StreamIsSealings(key: Aead, n: nat, chunks: seq<seq<byte>>)
    ensures Stream(key, n, chunks) == Encrypted(key, SealingsOf(key, n, chunks))
    decreases |chunks|
  {
    if chunks == [] {
      HeaderDigits(0);
      var last := Sealing(NonceOf(key, n), [0, 0]);
      assert SealingsOf(key, n, chunks) == [last] && [last][1..] == [];
      assert Encrypted(key, [last]) == key.encrypt(last.nonce, [], last.plain) + [];
    } else {
      HeaderDigits(|chunks[0]|);
      var more := SealingsOf(key, n + 2, chunks[1..]);
      var first, second := Sealing(NonceOf(key, n), Header(|chunks[0]|)), Sealing(NonceOf(key, n + 1), chunks[0]);
      StreamIsSealings(key, n + 2, chunks[1..]);
      TwoEncrypted(key, first, second, more);
      assert n + 2 + 2 * |chunks[1..]| == n + 2 * |chunks|;
      Regroup(Frame(key, n, chunks[0]), Frames(key, n + 2, chunks[1..]), ClosingHeader(key, n + 2 * |chunks|));
    }
  }

  lemma TwoEncrypted(key: Aead, first: Sealing, second: Sealing, more: seq<Sealing>)
    ensures Encrypted(key, [first, second] + more) ==
      (key.encrypt(first.nonce, [], first.plain) + key.encrypt(second.nonce, [], second.plain)) + Encrypted(key, more)
  {
    var all := [first, second] + more;
    assert all[1..] == [second] + more && all[1..][1..] == more;
    Regroup(key.encrypt(first.nonce, [], first.plain), key.encrypt(second.nonce, [], second.plain), Encrypted(key, more));
  }

  /** No two encryptions of a stream use the same nonce, as long as the nonces last. */
  lemma {:induction false} NoncesOfStreamDiffer(key: Aead, n: nat, chunks: seq<seq<byte>>)
    requires n + 2 * |chunks| < Pow256(key.nonceWidth)
    ensures |SealingsOf(key, n, chunks)| == 2 * |chunks| + 1
    ensures forall i | 0 <= i <= 2 * |chunks| :: SealingsOf(key, n, chunks)[i].nonce == NonceOf(key, n + i)
    ensures forall i, j | 0 <= i < j <= 2 * |chunks| :: SealingsOf(key, n, chunks)[i].nonce != SealingsOf(key, n, chunks)[j].nonce
    decreases |chunks|
  {
    if chunks != [] {
      NoncesOfStreamDiffer(key, n + 2, chunks[1..]);
      forall i | 2 <= i <= 2 * |chunks| ensures SealingsOf(key, n, chunks)[i].nonce == NonceOf(key, n + i) {
        assert SealingsOf(key, n, chunks)[i] == SealingsOf(key, n + 2, chunks[1..])[i - 2];
      }
    }
    forall i, j | 0 <= i < j <= 2 * |chunks|
      ensures SealingsOf(key, n, chunks)[i].nonce != SealingsOf(key, n, chunks)[j].nonce
    {
      NoncesDiffer(key, n + i, n + j);
    }
  }

  // ---------------------------------------------------------------- the encryptor

  datatype EncryptionError = NoncesExhausted

  /** How many frames were sent, and how many bytes wait for the next one. */
  datatype Progress = Progress(frames: nat, buffered: nat)

  function AfterFlush(p: Progress): Progress {
    if p.buffered > 0 then Progress(p.frames + 1, 0) else p
  }

  /** A byte that finds the buffer full makes it a frame first. */
  function AfterByte(p: Progress): Progress {
    if p.buffered == CHUNK then Progress(p.frames + 1, 1) else Progress(p.frames, p.buffered + 1)
  }

  function AfterBytes(p: Progress, n: nat): Progress {
    if n == 0 then p else AfterByte(AfterBytes(p, n - 1))
  }

  /** Bytes that come one after the other fill chunks of 4096 bytes; the last one waits to be flushed. */
  lemma {:induction false} FramesFromNothing(n: nat)
    ensures AfterBytes(Progress(0, 0), n) == if n == 0 then Progress(0, 0) else Progress((n - 1) / 4096, (n - 1) % 4096 + 1)
    ensures AfterFlush(AfterBytes(Progress(0, 0), n)).frames == (n + 4095) / 4096
  {
    if n > 0 { FramesFromNothing(n - 1); }
  }

  lemma {:induction false} AfterMoreBytes(p: Progress, m: nat, n: nat)
    ensures AfterBytes(p, m + n) == AfterBytes(AfterBytes(p, m), n)
    ensures AfterBytes(p, m).frames <= AfterBytes(p, m + n).frames
  {
    if n > 0 { AfterMoreBytes(p, m, n - 1); }
  }

  lemma {:induction false} AfterFewBytes(p: Progress, n: nat)
    requires p.buffered + n <= CHUNK
    ensures AfterBytes(p, n) == Progress(p.frames, p.buffered + n)
  {
    if n > 0 { AfterFewBytes(p, n - 1); }
  }

  /** Flushing a full buffer first makes no difference to the bytes that follow. */
  lemma {:induction false} AfterFullBuffer(p: Progress, n: nat)
    requires p.buffered == CHUNK && n > 0
    ensures AfterBytes(p, n) == AfterBytes(AfterFlush(p), n)
  {
    if n == 1 {
      assert AfterBytes(p, 0) == p && AfterBytes(AfterFlush(p), 0) == AfterFlush(p);
    } else {
      AfterFullBuffer(p, n - 1);
    }
  }

  class Encryptor {
    const key: Aead
    const nonce: array<byte>
    const buf: array<byte>
    var bufferedCount: nat
    /** What the inner consumer was given. */
    var wire: seq<byte>
    ghost var chunks: seq<seq<byte>>

    /** The bytes consumed since the last chunk was sent. */
    ghost function Pending(): seq<byte>
      requires bufferedCount <= CHUNK && buf.Length == key.tagWidth + CHUNK
      reads this, buf
    {
      buf[Offset(key)..Offset(key) + bufferedCount]
    }

    ghost predicate Shape()
      reads this
    {
      && Lawful(key) && bufferedCount <= CHUNK && nonce != buf
      && buf.Length == key.tagWidth + CHUNK && nonce.Length == key.nonceWidth
    }

    /** As many calls as frames were sent, and the wire holds those frames. */
    ghost predicate Valid()
      reads this, nonce, buf
    {
      && Shape() && ValidChunks(chunks)
      && FromBigEndian(nonce[..]) == 2 * |chunks|
      && wire == Frames(key, 0, chunks)
    }

    /** Everything consumed so far. */
    ghost function Consumed(): seq<byte>
      requires Shape()
      reads this, buf
    {
      Concat(chunks) + Pending()
    }

    ghost function Sent(): Progress
      reads this
    {
      Progress(|chunks|, bufferedCount)
    }

    constructor (key: Aead)
      requires Lawful(key)
      ensures Valid() && Consumed() == [] && Sent() == Progress(0, 0) && this.key == key && fresh(nonce) && fresh(buf)
    {
      this.key := key;
      nonce := new byte[key.nonceWidth](i => 0);
      buf := new byte[key.tagWidth + CHUNK](i => 0);
      bufferedCount, wire, chunks := 0, [], [];
      new;
      ZeroNonce(nonce[..]);
    }

    /** An encrypted length under the next nonce. */
    method SendHeader(len: nat) returns (r: Result<(), EncryptionError>)
      requires Shape() && len <= CHUNK
      modifies nonce, this`wire
      ensures var n := old(FromBigEndian(nonce[..]));
        && (r.Ok? <==> n + 1 < Pow256(key.nonceWidth))
        && (r.Ok? ==> FromBigEndian(nonce[..]) == n + 1 && wire == old(wire) + Sealed(key, n, Header(len)))
    {
      var header := new byte[key.tagWidth + 2](i => 0);
      Overwrite(header, Offset(key), BigEndian(len, 2));
      BigEndianOfValue(nonce[..]);
      assert PlainPart(key, header[..]) == Header(len);
      assert header[..key.tagWidth + 2] == header[..];
      EncryptInPlace(key, nonce, [], header, key.tagWidth + 2);
      assert header[..key.tagWidth + 2] == header[..];
      var ok := IncrementNonce(nonce);
      if !ok { return Err(NoncesExhausted); }
      wire := wire + header[..];
      return Ok(());
    }

    /** Send what is buffered, if anything, as one chunk. */
    method Flush() returns (r: Result<(), EncryptionError>)
      requires Valid()
      modifies this, nonce, buf
      ensures r.Ok? ==> Valid() && Sent() == AfterFlush(old(Sent())) && Consumed() == old(Consumed())
      ensures r.Err? <==> old(bufferedCount) > 0 && 2 * |old(chunks)| + 2 >= Pow256(key.nonceWidth)
    {
      if bufferedCount == 0 { return Ok(()); }
      r := SendPending();
    }

    method SendPending() returns (r: Result<(), EncryptionError>)
      requires Valid() && bufferedCount > 0
      modifies this, nonce, buf
      ensures r.Ok? ==> Valid() && Sent() == Progress(|old(chunks)| + 1, 0) && Consumed() == old(Consumed())
      ensures r.Err? <==> 2 * |old(chunks)| + 2 >= Pow256(key.nonceWidth)
    {
      ghost var chunk, before := Pending(), wire;
      r := SendFrame();
      if r.Err? { return; }
      SentChunk(key, before, wire, chunks, chunk);
      bufferedCount, chunks := 0, chunks + [chunk];
    }

    /** Two calls: an encrypted length, and the buffered bytes. */
    method SendFrame() returns (r: Result<(), EncryptionError>)
      requires Shape()
      modifies nonce, buf, this`wire
      ensures var n := old(FromBigEndian(nonce[..]));
        && (r.Ok? <==> n + 2 < Pow256(key.nonceWidth))
        && (r.Ok? ==> FromBigEndian(nonce[..]) == n + 2)
        && (r.Ok? ==> wire == old(wire) + Sealed(key, n, Header(bufferedCount)) + Sealed(key, n + 1, old(Pending())))
    {
      r := SendHeader(bufferedCount);
      if r.Err? { return; }
      r := SendChunk();
    }

    /** The buffered bytes, encrypted where they are. */
    method SendChunk() returns (r: Result<(), EncryptionError>)
      requires Shape()
      modifies nonce, buf, this`wire
      ensures var n := old(FromBigEndian(nonce[..]));
        && (r.Ok? <==> n + 1 < Pow256(key.nonceWidth))
        && (r.Ok? ==> FromBigEndian(nonce[..]) == n + 1 && wire == old(wire) + Sealed(key, n, old(Pending())))
    {
      var totalLen := bufferedCount + key.tagWidth;
      BigEndianOfValue(nonce[..]);
      assert PlainPart(key, buf[..totalLen]) == Pending();
      EncryptInPlace(key, nonce, [], buf, totalLen);
      var ok := IncrementNonce(nonce);
      if !ok { return Err(NoncesExhausted); }
      wire := wire + buf[..totalLen];
      return Ok(());
    }

    method Consume(item: byte) returns (r: Result<(), EncryptionError>)
      requires Valid()
      modifies this, nonce, buf
      ensures r.Ok? ==> Valid() && Sent() == AfterByte(old(Sent())) && Consumed() == old(Consumed()) + [item]
      ensures r.Err? <==> old(bufferedCount) == CHUNK && 2 * |old(chunks)| + 2 >= Pow256(key.nonceWidth)
    {
      if bufferedCount == CHUNK {
        r := Flush();
        if r.Err? { return; }
      }
      buf[bufferedCount + Offset(key)] := item;
      bufferedCount := bufferedCount + 1;
      return Ok(());
    }

    /** Consume in bulk: as many items as there are free slots, at least one. */
    method BulkConsume(items: seq<byte>) returns (r: Result<nat, EncryptionError>)
      requires Valid() && items != []
      modifies this, nonce, buf
      ensures r.Ok? ==> 0 < r.value <= |items| && Valid() && Consumed() == old(Consumed()) + items[..r.value]
      ensures r.Ok? ==> Sent() == AfterBytes(old(Sent()), r.value)
      ensures r.Err? <==> old(bufferedCount) == CHUNK && 2 * |old(chunks)| + 2 >= Pow256(key.nonceWidth)
    {
      ghost var before := Sent();
      if bufferedCount == CHUNK {
        var flushed := Flush();
        if flushed.Err? { return Err(flushed.error); }
      }
      var slots := CHUNK - bufferedCount;
      var amount: nat := if |items| < slots then |items| else slots;
      AfterFewBytes(Sent(), amount);
      if before.buffered == CHUNK { AfterFullBuffer(before, amount); }
      FillSlots(items[..amount]);
      return Ok(amount);
    }

    method FillSlots(items: seq<byte>)
      requires Valid() && bufferedCount + |items| <= CHUNK
      modifies this`bufferedCount, buf
      ensures Valid() && Consumed() == old(Consumed()) + items
      ensures Sent() == Progress(old(Sent().frames), old(Sent().buffered) + |items|)
    {
      ghost var was := Pending();
      Overwrite(buf, bufferedCount + Offset(key), items);
      bufferedCount := bufferedCount + |items|;
      assert Pending() == was + items;
      Regroup(Concat(chunks), was, items);
    }

    /** Flush, and announce the end by an empty chunk. */
    method Close() returns (r: Result<(), EncryptionError>)
      requires Valid()
      modifies this, nonce, buf
      ensures r.Ok? ==> ValidChunks(chunks) && wire == Stream(key, 0, chunks)
      ensures r.Ok? ==> Concat(chunks) == old(Consumed()) && 2 * |chunks| + 1 < Pow256(key.nonceWidth)
      ensures r.Ok? ==> |chunks| == AfterFlush(old(Sent())).frames
      ensures r.Ok? <==> 2 * AfterFlush(old(Sent())).frames + 1 < Pow256(key.nonceWidth)
    {
      r := Flush();
      if r.Err? { return; }
      r := SendHeader(0);
    }
  }

  /** The calls made so far all had nonces. */
  lemma NoncesLasted(e: Encryptor)
    requires e.Valid()
    ensures 2 * e.Sent().frames < Pow256(e.key.nonceWidth)
  {
    FromBigEndianBound(e.nonce[..]);
  }

  lemma SentChunk(key: Aead, before: seq<byte>, after: seq<byte>, chunks: seq<seq<byte>>, chunk: seq<byte>)
    requires before == Frames(key, 0, chunks) && ValidChunks(chunks) && 0 < |chunk| <= CHUNK
    requires var n := 2 * |chunks|;
      after == before + Sealed(key, n, Header(|chunk|)) + Sealed(key, n + 1, chunk)
    ensures after == Frames(key, 0, chunks + [chunk]) && ValidChunks(chunks + [chunk])
    ensures Concat(chunks + [chunk]) == Concat(chunks) + chunk
  {
    var n := 2 * |chunks|;
    FramesSnoc(key, 0, chunks, chunk);
    ConcatSnoc(chunks, chunk);
    Regroup(before, Sealed(key, n, Header(|chunk|)), Sealed(key, n + 1, chunk));
  }

  lemma {:induction false} ZeroNonce(b: seq<byte>)
    requires forall i | 0 <= i < |b| :: b[i] == 0
    ensures FromBigEndian(b) == 0
  {
    if b != [] { ZeroNonce(b[..|b| - 1]); }
  }
}
