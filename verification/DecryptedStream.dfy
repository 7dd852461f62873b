/** The receiving side of the encrypted transport, and what arrives of what was sent. */
module DecryptedStream {
  import opened Wrappers
  import opened ByteStrings
  import opened KeyCodec
  import opened EncryptedStream

  datatype WireEnd<F> = FinalValue(value: F) | Failure

  datatype DecryptionError =
    | Inner
    | NoMoreNonces
    | DecryptionFailure
    | WeirdEndOfStream
    | InvalidHeader
    | UnauthenticatedEndOfStream

  datatype Produced<F> = Item(item: byte) | Final(value: F)

  // ---------------------------------------------------------------- the meaning of any wire

  function CutError<F>(end: WireEnd<F>): DecryptionError {
    if end.FinalValue? then UnauthenticatedEndOfStream else Inner
  }

  /** Read `len` bytes of text under nonce `n`. */
  function ReadText<F>(key: Aead, end: WireEnd<F>, n: nat, p: seq<byte>, len: nat)
      : (r: Result<(seq<byte>, seq<byte>), DecryptionError>)
    ensures r.Ok? ==> |r.value.0| == len && |r.value.1| == |p| - key.tagWidth - len
  {
    var total := key.tagWidth + len;
    if |p| < total then Err(CutError(end))
    else
      var plain := key.decrypt(NonceOf(key, n), [], p[..total]);
      if plain.None? || |plain.value| != len then Err(DecryptionFailure)
      else if n + 1 >= Pow256(key.nonceWidth) then Err(NoMoreNonces)
      else Ok((plain.value, p[total..]))
  }

  /** A chunk, empty for the closing header, with the number of the next call and the rest of the wire. */
  datatype Chunk = Chunk(bytes: seq<byte>, n: nat, p: seq<byte>)

  function NextChunk<F>(key: Aead, end: WireEnd<F>, n: nat, p: seq<byte>): (r: Result<Chunk, DecryptionError>)
    ensures r.Ok? ==> |r.value.p| < |p| && |r.value.bytes| <= CHUNK
  {
    var header := ReadText(key, end, n, p, 2);
    if header.Err? then Err(header.error)
    else
      var len := FromBigEndian(header.value.0);
      if len > CHUNK then Err(InvalidHeader)
      else if len == 0 then Ok(Chunk([], n + 1, header.value.1))
      else
        var body := ReadText(key, end, n + 1, header.value.1, len);
        if body.Err? then Err(body.error) else Ok(Chunk(body.value.0, n + 2, body.value.1))
  }

  /** The bytes a decryptor yields, and how it ends. */
  datatype Outcome<F> = Outcome(bytes: seq<byte>, end: Result<F, DecryptionError>)

  /** After the closing header, only the final value may come. */
  function AfterClosing<F>(end: WireEnd<F>, p: seq<byte>): Outcome<F> {
    Outcome([], if p != [] then Err(WeirdEndOfStream) else if end.FinalValue? then Ok(end.value) else Err(Inner))
  }

  function Decoded<F>(key: Aead, end: WireEnd<F>, n: nat, p: seq<byte>): Outcome<F>
    decreases |p|
  {
    var chunk := NextChunk(key, end, n, p);
    if chunk.Err? then Outcome([], Err(chunk.error))
    else if chunk.value.bytes == [] then AfterClosing(end, chunk.value.p)
    else Behind(chunk.value.bytes, Decoded(key, end, chunk.value.n, chunk.value.p))
  }

  function Behind<F>(bytes: seq<byte>, o: Outcome<F>): Outcome<F> {
    Outcome(bytes + o.bytes, o.end)
  }

  lemma BehindNothing<F>(bytes: seq<byte>, o: Outcome<F>)
    requires bytes == []
    ensures Behind(bytes, o) == o
  {
    assert bytes + o.bytes == o.bytes;
  }

  /** What is to come, once the next chunk was read. */
  lemma NextFuture<F>(key: Aead, end: WireEnd<F>, n: nat, p: seq<byte>, buffered: seq<byte>)
    requires buffered == []
    ensures Behind(buffered, Decoded(key, end, n, p)) == match NextChunk(key, end, n, p)
      case Err(e) => Outcome([], Err(e))
      case Ok(chunk) =>
        if chunk.bytes == [] then AfterClosing(end, chunk.p)
        else Behind(chunk.bytes, Decoded(key, end, chunk.n, chunk.p))
  {
    BehindNothing(buffered, Decoded(key, end, n, p));
  }

  function FirstOf<F>(o: Outcome<F>): Result<Produced<F>, DecryptionError> {
    if o.bytes != [] then Ok(Item(o.bytes[0]))
    else match o.end case Ok(v) => Ok(Final(v)) case Err(e) => Err(e)
  }

  function RestOf<F>(o: Outcome<F>): Outcome<F>
    requires o.bytes != []
  {
    Outcome(o.bytes[1..], o.end)
  }

  // ---------------------------------------------------------------- the decryptor

  class Decryptor<F> {
    const key: Aead
    const nonce: array<byte>
    const buf: array<byte>
    var bufferedCount: nat
    var currentChunkLen: nat
    /** What the inner producer still has, and how it ends. */
    var p: seq<byte>
    const end: WireEnd<F>

    ghost predicate Valid()
      reads this
    {
      && nonce != buf && nonce.Length == key.nonceWidth && buf.Length == key.tagWidth + CHUNK
      && bufferedCount <= currentChunkLen <= CHUNK
    }

    ghost function Calls(): nat
      reads this, nonce
    {
      FromBigEndian(nonce[..])
    }

    ghost function Buffered(): seq<byte>
      requires Valid()
      reads this, buf
    {
      buf[Offset(key) + currentChunkLen - bufferedCount..Offset(key) + currentChunkLen]
    }

    /** All that is still to come. */
    ghost function Future(): Outcome<F>
      requires Valid()
      reads this, nonce, buf
    {
      if currentChunkLen == 0 then AfterClosing(end, p)
      else Behind(Buffered(), Decoded(key, end, Calls(), p))
    }

    constructor (key: Aead, wire: seq<byte>, end: WireEnd<F>)
      ensures Valid() && Future() == Decoded(key, end, 0, wire)
      ensures this.key == key && this.end == end && fresh(nonce) && fresh(buf)
    {
      this.key := key;
      nonce := new byte[key.nonceWidth](i => 0);
      buf := new byte[key.tagWidth + CHUNK](i => 0);
      bufferedCount, currentChunkLen := 0, 42;
      p, this.end := wire, end;
      new;
      ZeroNonce(nonce[..]);
    }

    /** Fill the beginning of a buffer from the wire, decrypt it there, and count the call. */
    method ReadSealed(target: array<byte>, len: nat) returns (r: Result<(), DecryptionError>)
      requires nonce != buf && nonce != target && nonce.Length == key.nonceWidth && key.tagWidth + len <= target.Length
      modifies this`p, nonce, target
      ensures var text := ReadText(key, end, old(Calls()), old(p), len);
        && (r.Ok? <==> text.Ok?)
        && (r.Err? ==> r.error == text.error)
        && (r.Ok? ==> PlainPart(key, target[..key.tagWidth + len]) == text.value.0 && p == text.value.1)
        && (r.Ok? ==> Calls() == old(Calls()) + 1)
    {
      var total := key.tagWidth + len;
      if |p| < total { return Err(CutError(end)); }
      Overwrite(target, 0, p[..total]);
      p := p[total..];
      BigEndianOfValue(nonce[..]);
      assert target[..total] == old(p)[..total];
      var ok := DecryptInPlace(key, nonce, [], target, total);
      if !ok { return Err(DecryptionFailure); }
      ok := IncrementNonce(nonce);
      return if ok then Ok(()) else Err(NoMoreNonces);
    }

    /** Read a length and, unless it is zero, the chunk of that length. */
    method ReadHeader() returns (r: Result<nat, DecryptionError>)
      requires Valid()
      modifies this`p, nonce
      ensures var text := ReadText(key, end, old(Calls()), old(p), 2);
        && (text.Err? ==> r == Err(text.error))
        && (text.Ok? ==> r == Ok(FromBigEndian(text.value.0)) && p == text.value.1 && Calls() == old(Calls()) + 1)
    {
      var header := new byte[key.tagWidth + 2](i => 0);
      var read := ReadSealed(header, 2);
      if read.Err? { return Err(read.error); }
      assert PlainPart(key, header[..key.tagWidth + 2]) == header[Offset(key)..Offset(key) + 2];
      return Ok(FromBigEndian(header[Offset(key)..Offset(key) + 2]));
    }

    method ReadChunk() returns (r: Result<(), DecryptionError>)
      requires Valid()
      modifies this`bufferedCount, this`currentChunkLen, this`p, nonce, buf
      ensures var chunk := NextChunk(key, end, old(Calls()), old(p));
        && (r.Ok? <==> chunk.Ok?)
        && (r.Err? ==> r.error == chunk.error)
        && (r.Ok? ==> Valid() && Buffered() == chunk.value.bytes && bufferedCount == currentChunkLen)
        && (r.Ok? ==> Calls() == chunk.value.n && p == chunk.value.p)
    {
      var header := ReadHeader();
      if header.Err? { return Err(header.error); }
      var len := header.value;
      if len > CHUNK { return Err(InvalidHeader); }
      if len == 0 {
        bufferedCount, currentChunkLen := 0, 0;
        return Ok(());
      }
      r := ReadBody(len);
    }

    method ReadBody(len: nat) returns (r: Result<(), DecryptionError>)
      requires Valid() && 0 < len <= CHUNK
      modifies this`bufferedCount, this`currentChunkLen, this`p, nonce, buf
      ensures var text := ReadText(key, end, old(Calls()), old(p), len);
        && (r.Ok? <==> text.Ok?)
        && (r.Err? ==> r.error == text.error)
        && (r.Ok? ==> Valid() && Buffered() == text.value.0 && bufferedCount == currentChunkLen)
        && (r.Ok? ==> Calls() == old(Calls()) + 1 && p == text.value.1)
    {
      r := ReadSealed(buf, len);
      if r.Err? { return; }
      assert PlainPart(key, buf[..key.tagWidth + len]) == buf[Offset(key)..Offset(key) + len];
      bufferedCount, currentChunkLen := len, len;
    }

    /** Read a chunk if there is nothing buffered and the stream is not over. */
    method FillBuffer() returns (r: Result<(), DecryptionError>)
      requires Valid()
      modifies this`bufferedCount, this`currentChunkLen, this`p, nonce, buf
      ensures r.Ok? ==> Valid() && Future() == old(Future()) && (bufferedCount == 0 ==> currentChunkLen == 0)
      ensures r.Err? ==> old(Future()) == Outcome([], Err(r.error))
    {
      if bufferedCount != 0 || currentChunkLen == 0 { return Ok(()); }
      r := Refill();
    }

    method Refill() returns (r: Result<(), DecryptionError>)
      requires Valid() && bufferedCount == 0 && currentChunkLen != 0
      modifies this`bufferedCount, this`currentChunkLen, this`p, nonce, buf
      ensures r.Ok? ==> Valid() && Future() == old(Future()) && bufferedCount == currentChunkLen
      ensures r.Err? ==> old(Future()) == Outcome([], Err(r.error))
    {
      NextFuture(key, end, Calls(), p, Buffered());
      r := ReadChunk();
    }

    /** The next byte, or the end. */
    method Produce() returns (r: Result<Produced<F>, DecryptionError>)
      requires Valid()
      modifies this`bufferedCount, this`currentChunkLen, this`p, nonce, buf
      ensures r == FirstOf(old(Future()))
      ensures old(Future()).bytes != [] ==> Valid() && Future() == RestOf(old(Future()))
    {
      if currentChunkLen == 0 {
        r := ProduceEnd();
        return;
      }
      if bufferedCount == 0 {
        var filled := FillBuffer();
        if filled.Err? { return Err(filled.error); }
      }
      if currentChunkLen == 0 {
        r := ProduceEnd();
        return;
      }
      var item := TakeBuffered();
      return Ok(Item(item));
    }

    method TakeBuffered() returns (item: byte)
      requires Valid() && bufferedCount > 0
      modifies this`bufferedCount
      ensures Valid() && old(Future()).bytes != [] && item == old(Future()).bytes[0] && Future() == RestOf(old(Future()))
    {
      item := buf[Offset(key) + currentChunkLen - bufferedCount];
      bufferedCount := bufferedCount - 1;
      ghost var o := Decoded(key, end, Calls(), p);
      assert old(Buffered()) == [item] + Buffered();
      assert old(Buffered()) + o.bytes == [item] + (Buffered() + o.bytes);
    }

    method ProduceEnd() returns (r: Result<Produced<F>, DecryptionError>)
      ensures r == FirstOf(AfterClosing(end, p))
    {
      if p != [] { return Err(WeirdEndOfStream); }
      match end
      case FinalValue(v) => return Ok(Final(v));
      case Failure => return Err(Inner);
    }

    method Slurp() returns (r: Result<(), DecryptionError>)
      requires Valid()
      modifies this`bufferedCount, this`currentChunkLen, this`p, nonce, buf
      ensures r.Ok? ==> Valid() && Future() == old(Future())
      ensures r.Err? ==> old(Future()) == Outcome([], Err(r.error))
    {
      r := FillBuffer();
    }
  }

  // ---------------------------------------------------------------- what arrives

  /** Reading a text that was sent, from a wire that may have been cut somewhere. */
  lemma ReadSent<F>(key: Aead, end: WireEnd<F>, n: nat, plain: seq<byte>, after: seq<byte>, p: seq<byte>, missing: seq<byte>)
    requires Lawful(key) && n + 1 < Pow256(key.nonceWidth) && p + missing == Sealed(key, n, plain) + after
    ensures var r := ReadText(key, end, n, p, |plain|);
      if |p| < key.tagWidth + |plain| then r == Err(CutError(end)) && missing != []
      else r.Ok? && r.value.0 == plain && r.value.1 + missing == after
  {
    var piece := Sealed(key, n, plain);
    assert |piece| == key.tagWidth + |plain|;
    if |p| >= |piece| {
      var whole := p + missing;
      assert whole[..|piece|] == p[..|piece|] && whole[|piece|..] == p[|piece|..] + missing;
      assert (piece + after)[..|piece|] == piece && (piece + after)[|piece|..] == after;
    }
  }

  lemma StreamStep(key: Aead, n: nat, chunks: seq<seq<byte>>)
    requires chunks != []
    ensures Stream(key, n, chunks)
      == Sealed(key, n, Header(|chunks[0]|)) + (Sealed(key, n + 1, chunks[0]) + Stream(key, n + 2, chunks[1..]))
  {
    var h, c, f := Sealed(key, n, Header(|chunks[0]|)), Sealed(key, n + 1, chunks[0]), Frames(key, n + 2, chunks[1..]);
    var closing := ClosingHeader(key, n + 2 * |chunks|);
    assert ((h + c) + f) + closing == h + (c + (f + closing));
  }

  /** All of the bytes and the end if nothing is missing, else a beginning of the bytes and an error. */
  predicate Arrives<F(==)>(end: WireEnd<F>, o: Outcome<F>, bytes: seq<byte>, missing: seq<byte>) {
    && o.bytes <= bytes
    && (missing == [] ==> o == Outcome(bytes, AfterClosing(end, []).end))
    && (missing != [] ==> o.end == Err(CutError(end)))
  }

  /** Of a closed stream that arrives as a whole, all bytes are produced, and then the final value.
      If the end is cut off anywhere, a beginning of the bytes is produced, and then an error. */
  lemma {:induction false} StreamArrives<F>(key: Aead, end: WireEnd<F>, n: nat, chunks: seq<seq<byte>>, p: seq<byte>, missing: seq<byte>)
    requires Lawful(key) && ValidChunks(chunks) && n + 2 * |chunks| + 1 < Pow256(key.nonceWidth)
    requires p + missing == Stream(key, n, chunks)
    ensures Arrives(end, Decoded(key, end, n, p), Concat(chunks), missing)
    decreases |chunks|
  {
    if chunks == [] {
      ClosingArrives(key, end, n, p, missing);
    } else {
      var rest := ChunkArrives(key, end, n, chunks, p, missing);
      if rest.Some? { StreamArrives(key, end, n + 2, chunks[1..], rest.value, missing); }
    }
  }

  /** The first chunk arrives and leaves the rest of the stream, or the stream ends in it. */
  lemma ChunkArrives<F>(key: Aead, end: WireEnd<F>, n: nat, chunks: seq<seq<byte>>, p: seq<byte>, missing: seq<byte>)
      returns (rest: Option<seq<byte>>)
    requires Lawful(key) && n + 2 < Pow256(key.nonceWidth) && p + missing == Stream(key, n, chunks)
    requires chunks != [] && 0 < |chunks[0]| <= CHUNK
    ensures rest.None? ==> Arrives(end, Decoded(key, end, n, p), Concat(chunks), missing)
    ensures rest.Some? ==> rest.value + missing == Stream(key, n + 2, chunks[1..])
    ensures rest.Some? && Arrives(end, Decoded(key, end, n + 2, rest.value), Concat(chunks[1..]), missing) ==>
      Arrives(end, Decoded(key, end, n, p), Concat(chunks), missing)
  {
    ChunkSent(key, end, n, chunks, p, missing);
    var next := NextChunk(key, end, n, p);
    if next.Err? { return None; }
    ArrivesFurther(key, end, n, p, next.value, Concat(chunks[1..]), missing);
    return Some(next.value.p);
  }

  lemma ArrivesFurther<F>(key: Aead, end: WireEnd<F>, n: nat, p: seq<byte>, next: Chunk, more: seq<byte>, missing: seq<byte>)
    requires next.bytes != [] && NextChunk(key, end, n, p) == Ok(next)
    ensures Arrives(end, Decoded(key, end, next.n, next.p), more, missing) ==>
      Arrives(end, Decoded(key, end, n, p), next.bytes + more, missing)
  {}

  lemma ClosingArrives<F>(key: Aead, end: WireEnd<F>, n: nat, p: seq<byte>, missing: seq<byte>)
    requires Lawful(key) && n + 1 < Pow256(key.nonceWidth) && p + missing == Stream(key, n, [])
    ensures Arrives(end, Decoded(key, end, n, p), [], missing)
  {
    ClosingSent(key, end, n, p, missing);
  }

  lemma ClosingSent<F>(key: Aead, end: WireEnd<F>, n: nat, p: seq<byte>, missing: seq<byte>)
    requires Lawful(key) && n + 1 < Pow256(key.nonceWidth) && p + missing == Stream(key, n, [])
    ensures NextChunk(key, end, n, p) == if missing == [] then Ok(Chunk([], n + 1, [])) else Err(CutError(end))
  {
    assert Stream(key, n, []) == Sealed(key, n, Header(0)) + [];
    ReadSent(key, end, n, Header(0), [], p, missing);
    HeaderRoundTrip(0);
  }

  lemma ChunkSent<F>(key: Aead, end: WireEnd<F>, n: nat, chunks: seq<seq<byte>>, p: seq<byte>, missing: seq<byte>)
    requires Lawful(key) && n + 2 < Pow256(key.nonceWidth) && p + missing == Stream(key, n, chunks)
    requires chunks != [] && 0 < |chunks[0]| <= CHUNK
    ensures var next := NextChunk(key, end, n, p);
      && (next.Ok? ==> next.value.bytes == chunks[0] && next.value.n == n + 2)
      && (next.Ok? ==> next.value.p + missing == Stream(key, n + 2, chunks[1..]))
      && (next.Err? ==> next.error == CutError(end) && missing != [])
  {
    var chunk, after := chunks[0], Stream(key, n + 2, chunks[1..]);
    var header := Header(|chunk|);
    StreamStep(key, n, chunks);
    HeaderRoundTrip(|chunk|);
    ReadSent(key, end, n, header, Sealed(key, n + 1, chunk) + after, p, missing);
    var first := ReadText(key, end, n, p, 2);
    if first.Ok? {
      ReadSent(key, end, n + 1, chunk, after, first.value.1, missing);
      BodyFollows(key, end, n, p, |chunk|);
    }
  }

  lemma BodyFollows<F>(key: Aead, end: WireEnd<F>, n: nat, p: seq<byte>, len: nat)
    requires 0 < len <= CHUNK && ReadText(key, end, n, p, 2).Ok? && FromBigEndian(ReadText(key, end, n, p, 2).value.0) == len
    ensures NextChunk(key, end, n, p) == match ReadText(key, end, n + 1, ReadText(key, end, n, p, 2).value.1, len)
      case Err(e) => Err(e)
      case Ok((body, rest)) => Ok(Chunk(body, n + 2, rest))
  {}

  // ---------------------------------------------------------------- what is accepted

  /** Nothing is decrypted but what was encrypted with the same key under the same nonce. */
  ghost predicate Authentic(key: Aead) {
    && Lawful(key)
    && forall nonce, ad, sealed ::
      var plain := key.decrypt(nonce, ad, sealed);
      plain.Some? ==> sealed == key.encrypt(nonce, ad, plain.value)
  }

  lemma TextWasSealed<F>(key: Aead, end: WireEnd<F>, n: nat, p: seq<byte>, len: nat)
    requires Authentic(key) && ReadText(key, end, n, p, len).Ok?
    ensures var (plain, rest) := ReadText(key, end, n, p, len).value;
      p == Sealed(key, n, plain) + rest && n + 1 < Pow256(key.nonceWidth)
  {
    assert p == p[..key.tagWidth + len] + p[key.tagWidth + len..];
  }

  /** A chunk that is read was sent as a frame, the closing header as such. */
  lemma ChunkWasSealed<F>(key: Aead, end: WireEnd<F>, n: nat, p: seq<byte>)
    requires Authentic(key) && NextChunk(key, end, n, p).Ok?
    ensures var next := NextChunk(key, end, n, p).value;
      if next.bytes == [] then next.n == n + 1 < Pow256(key.nonceWidth) && p == ClosingHeader(key, n) + next.p
      else next.n == n + 2 < Pow256(key.nonceWidth) && p == Frame(key, n, next.bytes) + next.p
  {
    var (header, rest) := ReadText(key, end, n, p, 2).value;
    TextWasSealed(key, end, n, p, 2);
    BigEndianOfValue(header);
    var len := FromBigEndian(header);
    if len > 0 {
      var body := ReadText(key, end, n + 1, rest, len).value;
      TextWasSealed(key, end, n + 1, rest, len);
      Regroup(Sealed(key, n, header), Sealed(key, n + 1, body.0), body.1);
    }
  }

  /** What a wire that begins with the frames of some chunks makes of them: precisely their bytes, and a
      proper end only if nothing but the closing header follows. */
  ghost predicate Sent<F>(key: Aead, end: WireEnd<F>, n: nat, p: seq<byte>, o: Outcome<F>, chunks: seq<seq<byte>>) {
    && ValidChunks(chunks) && Frames(key, n, chunks) <= p && o.bytes == Concat(chunks)
    && (o.end.Ok? ==>
      end == FinalValue(o.end.value) && p == Stream(key, n, chunks) && n + 2 * |chunks| + 1 < Pow256(key.nonceWidth))
  }

  /** Whatever arrives, the bytes that are produced are those of chunks whose frames arrived in this order,
      and if the end is reached, then a whole closed stream arrived. */
  lemma {:induction false} ProducedWasSent<F>(key: Aead, end: WireEnd<F>, n: nat, p: seq<byte>) returns (chunks: seq<seq<byte>>)
    requires Authentic(key)
    ensures Sent(key, end, n, p, Decoded(key, end, n, p), chunks)
    decreases |p|
  {
    chunks := [];
    var next := NextChunk(key, end, n, p);
    if next.Ok? {
      if next.value.bytes == [] {
        ClosedWasSent(key, end, n, p);
      } else {
        var more := ProducedWasSent(key, end, next.value.n, next.value.p);
        chunks := FrameWasSent(key, end, n, p, more);
      }
    }
  }

  lemma ClosedWasSent<F>(key: Aead, end: WireEnd<F>, n: nat, p: seq<byte>)
    requires Authentic(key) && NextChunk(key, end, n, p).Ok? && NextChunk(key, end, n, p).value.bytes == []
    ensures Sent(key, end, n, p, Decoded(key, end, n, p), [])
  {
    ChunkWasSealed(key, end, n, p);
    var after := NextChunk(key, end, n, p).value.p;
    assert after == [] ==> p == ClosingHeader(key, n) == Stream(key, n, []);
  }

  lemma FrameWasSent<F>(key: Aead, end: WireEnd<F>, n: nat, p: seq<byte>, more: seq<seq<byte>>) returns (chunks: seq<seq<byte>>)
    requires Authentic(key) && NextChunk(key, end, n, p).Ok? && NextChunk(key, end, n, p).value.bytes != []
    requires var next := NextChunk(key, end, n, p).value; Sent(key, end, next.n, next.p, Decoded(key, end, next.n, next.p), more)
    ensures Sent(key, end, n, p, Decoded(key, end, n, p), chunks)
  {
    ChunkWasSealed(key, end, n, p);
    var next := NextChunk(key, end, n, p).value;
    FrameBefore(key, n, next.bytes, more, next.p);
    chunks := [next.bytes] + more;
  }

  lemma FrameBefore(key: Aead, n: nat, chunk: seq<byte>, more: seq<seq<byte>>, after: seq<byte>)
    requires Frames(key, n + 2, more) <= after
    ensures Frames(key, n, [chunk] + more) <= Frame(key, n, chunk) + after
    ensures Concat([chunk] + more) == chunk + Concat(more)
    ensures Stream(key, n, [chunk] + more) == Frame(key, n, chunk) + Stream(key, n + 2, more)
  {
    assert ([chunk] + more)[0] == chunk && ([chunk] + more)[1..] == more;
    assert n + 2 * |[chunk] + more| == n + 2 + 2 * |more|;
    Regroup(Frame(key, n, chunk), Frames(key, n + 2, more), ClosingHeader(key, n + 2 + 2 * |more|));
  }

  /** A wire is understood to its end if and only if it is precisely a closed stream, sent under nonces that last. */
  lemma AcceptedIff<F>(key: Aead, end: WireEnd<F>, n: nat, p: seq<byte>)
    requires Authentic(key)
    ensures Decoded(key, end, n, p).end.Ok? <==>
      end.FinalValue? && exists chunks | ValidChunks(chunks) ::
        p == Stream(key, n, chunks) && n + 2 * |chunks| + 1 < Pow256(key.nonceWidth)
  {
    var _ := ProducedWasSent(key, end, n, p);
    forall sent | ValidChunks(sent) && p == Stream(key, n, sent) && n + 2 * |sent| + 1 < Pow256(key.nonceWidth)
      ensures end.FinalValue? ==> Decoded(key, end, n, p).end.Ok?
    {
      assert p + [] == p;
      StreamArrives(key, end, n, sent, p, []);
    }
  }

  /** All of the bytes, and then the complaint that the wire goes on. */
  predicate GoesOn<F(==)>(o: Outcome<F>, bytes: seq<byte>) {
    o.bytes == bytes && o.end == Err(WeirdEndOfStream)
  }

  /** Bytes behind a closed stream are noticed, after all that was sent was produced. */
  lemma {:induction false} TrailingBytesRefused<F>(key: Aead, end: WireEnd<F>, n: nat, chunks: seq<seq<byte>>, p: seq<byte>, trailing: seq<byte>)
    requires Lawful(key) && ValidChunks(chunks) && n + 2 * |chunks| + 1 < Pow256(key.nonceWidth)
    requires p == Stream(key, n, chunks) + trailing && trailing != []
    ensures GoesOn(Decoded(key, end, n, p), Concat(chunks))
    decreases |chunks|
  {
    if chunks == [] {
      NothingButTrailing(key, end, n, trailing);
    } else {
      var rest := FirstFrameRead(key, end, n, chunks, p, trailing);
      TrailingBytesRefused(key, end, n + 2, chunks[1..], rest, trailing);
    }
  }

  lemma NothingButTrailing<F>(key: Aead, end: WireEnd<F>, n: nat, trailing: seq<byte>)
    requires Lawful(key) && n + 1 < Pow256(key.nonceWidth) && trailing != []
    ensures GoesOn(Decoded(key, end, n, Stream(key, n, []) + trailing), [])
  {
    ClosingRead(key, end, n, trailing);
  }

  lemma GoesOnFurther<F>(key: Aead, end: WireEnd<F>, n: nat, p: seq<byte>, next: Chunk, more: seq<byte>)
    requires next.bytes != [] && NextChunk(key, end, n, p) == Ok(next)
    ensures GoesOn(Decoded(key, end, next.n, next.p), more) ==> GoesOn(Decoded(key, end, n, p), next.bytes + more)
  {}

  lemma FirstFrameRead<F>(key: Aead, end: WireEnd<F>, n: nat, chunks: seq<seq<byte>>, p: seq<byte>, trailing: seq<byte>)
      returns (rest: seq<byte>)
    requires Lawful(key) && chunks != [] && 0 < |chunks[0]| <= CHUNK && n + 2 < Pow256(key.nonceWidth)
    requires p == Stream(key, n, chunks) + trailing
    ensures rest == Stream(key, n + 2, chunks[1..]) + trailing
    ensures GoesOn(Decoded(key, end, n + 2, rest), Concat(chunks[1..])) ==> GoesOn(Decoded(key, end, n, p), Concat(chunks))
  {
    rest := Stream(key, n + 2, chunks[1..]) + trailing;
    FirstChunk(key, end, n, chunks, p, trailing);
    GoesOnFurther(key, end, n, p, Chunk(chunks[0], n + 2, rest), Concat(chunks[1..]));
  }

  lemma FirstChunk<F>(key: Aead, end: WireEnd<F>, n: nat, chunks: seq<seq<byte>>, p: seq<byte>, trailing: seq<byte>)
    requires Lawful(key) && chunks != [] && 0 < |chunks[0]| <= CHUNK && n + 2 < Pow256(key.nonceWidth)
    requires p == Stream(key, n, chunks) + trailing
    ensures NextChunk(key, end, n, p) == Ok(Chunk(chunks[0], n + 2, Stream(key, n + 2, chunks[1..]) + trailing))
  {
    FrameFirst(key, n, chunks, trailing);
    FrameRead(key, end, n, chunks[0], Stream(key, n + 2, chunks[1..]) + trailing);
  }

  lemma FrameFirst(key: Aead, n: nat, chunks: seq<seq<byte>>, trailing: seq<byte>)
    requires chunks != []
    ensures Stream(key, n, chunks) + trailing ==
      Sealed(key, n, Header(|chunks[0]|)) + (Sealed(key, n + 1, chunks[0]) + (Stream(key, n + 2, chunks[1..]) + trailing))
  {
    StreamStep(key, n, chunks);
    var header, body, more := Sealed(key, n, Header(|chunks[0]|)), Sealed(key, n + 1, chunks[0]), Stream(key, n + 2, chunks[1..]);
    Regroup(header, body + more, trailing);
    Regroup(body, more, trailing);
  }

  lemma ClosingRead<F>(key: Aead, end: WireEnd<F>, n: nat, after: seq<byte>)
    requires Lawful(key) && n + 1 < Pow256(key.nonceWidth)
    ensures NextChunk(key, end, n, Stream(key, n, []) + after) == Ok(Chunk([], n + 1, after))
  {
    var p := Stream(key, n, []) + after;
    assert p == Sealed(key, n, Header(0)) + after && p + [] == p;
    ReadSent(key, end, n, Header(0), after, p, []);
    HeaderRoundTrip(0);
  }

  lemma FrameRead<F>(key: Aead, end: WireEnd<F>, n: nat, chunk: seq<byte>, after: seq<byte>)
    requires Lawful(key) && 0 < |chunk| <= CHUNK && n + 2 < Pow256(key.nonceWidth)
    ensures NextChunk(key, end, n, Sealed(key, n, Header(|chunk|)) + (Sealed(key, n + 1, chunk) + after)) == Ok(Chunk(chunk, n + 2, after))
  {
    var body := Sealed(key, n + 1, chunk) + after;
    var p := Sealed(key, n, Header(|chunk|)) + body;
    HeaderRoundTrip(|chunk|);
    assert p + [] == p && body + [] == body;
    ReadSent(key, end, n, Header(|chunk|), body, p, []);
    ReadSent(key, end, n + 1, chunk, after, body, []);
  }

  /** A header that announces more than a chunk holds ends the stream. */
  lemma OversizedHeaderRefused<F>(key: Aead, end: WireEnd<F>, n: nat, len: nat, after: seq<byte>)
    requires Lawful(key) && CHUNK < len < 0x1_0000 && n + 1 < Pow256(key.nonceWidth)
    ensures Decoded(key, end, n, Sealed(key, n, Header(len)) + after) == Outcome([], Err(InvalidHeader))
  {
    var p := Sealed(key, n, Header(len)) + after;
    HeaderRoundTrip(len);
    assert p + [] == p;
    ReadSent(key, end, n, Header(len), after, p, []);
  }

  datatype Call = ConsumeByte(item: byte) | ConsumeBulk(items: seq<byte>) | FlushNow

  function DataOf(calls: seq<Call>): seq<byte> {
    if calls == [] then [] else DataOf(calls[..|calls| - 1]) + DataIn(calls[|calls| - 1])
  }

  function DataIn(call: Call): seq<byte> {
    match call
    case ConsumeByte(b) => [b]
    case ConsumeBulk(bytes) => bytes
    case FlushNow => []
  }

  function AfterCall(p: Progress, call: Call): Progress {
    match call
    case ConsumeByte(_) => AfterByte(p)
    case ConsumeBulk(items) => AfterBytes(p, |items|)
    case FlushNow => AfterFlush(p)
  }

  function AfterCalls(calls: seq<Call>): Progress {
    if calls == [] then Progress(0, 0) else AfterCall(AfterCalls(calls[..|calls| - 1]), calls[|calls| - 1])
  }

  /** How many frames it takes to send what the calls consume. */
  function FramesNeeded(calls: seq<Call>): nat {
    AfterFlush(AfterCalls(calls)).frames
  }

  lemma {:induction false} FramesGrow(calls: seq<Call>, n: nat)
    requires n <= |calls|
    ensures AfterCalls(calls[..n]).frames <= AfterCalls(calls).frames
    decreases |calls|
  {
    if n == |calls| {
      assert calls[..n] == calls;
    } else {
      var init, last := calls[..|calls| - 1], calls[|calls| - 1];
      assert init[..n] == calls[..n];
      FramesGrow(init, n);
      if last.ConsumeBulk? { AfterMoreBytes(AfterCalls(init), 0, |last.items|); }
    }
  }

  method ConsumeAll(e: Encryptor, items: seq<byte>) returns (r: Result<(), EncryptionError>)
    requires e.Valid()
    modifies e, e.nonce, e.buf
    ensures r.Ok? ==> e.Valid() && e.Consumed() == old(e.Consumed()) + items
    ensures r.Ok? ==> e.Sent() == AfterBytes(old(e.Sent()), |items|)
    ensures r.Ok? <==> 2 * AfterBytes(old(e.Sent()), |items|).frames < Pow256(e.key.nonceWidth)
  {
    ghost var start, before := e.Sent(), e.Consumed();
    var i := 0;
    assert before + items[..0] == before;
    while i < |items|
      invariant i <= |items| && e.Valid() && e.Consumed() == before + items[..i] && e.Sent() == AfterBytes(start, i)
    {
      var n := ConsumeSome(e, items, i, start, before);
      if n.Err? { return Err(n.error); }
      i := i + n.value;
    }
    assert items[..i] == items;
    NoncesLasted(e);
    return Ok(());
  }

  method ConsumeSome(e: Encryptor, items: seq<byte>, i: nat, ghost start: Progress, ghost before: seq<byte>)
      returns (n: Result<nat, EncryptionError>)
    requires e.Valid() && i < |items| && e.Consumed() == before + items[..i] && e.Sent() == AfterBytes(start, i)
    modifies e, e.nonce, e.buf
    ensures n.Ok? ==> e.Valid() && 0 < n.value <= |items| - i
    ensures n.Ok? ==> e.Consumed() == before + items[..i + n.value] && e.Sent() == AfterBytes(start, i + n.value)
    ensures n.Err? ==> 2 * AfterBytes(start, |items|).frames >= Pow256(e.key.nonceWidth)
  {
    n := e.BulkConsume(items[i..]);
    if n.Err? {
      AfterMoreBytes(start, i + 1, |items| - (i + 1));
    } else {
      AfterMoreBytes(start, i, n.value);
      assert before + items[..i] + items[i..][..n.value] == before + items[..i + n.value];
    }
  }

  method ApplyNext(e: Encryptor, calls: seq<Call>, i: nat) returns (r: Result<(), EncryptionError>)
    requires i < |calls| && e.Valid() && e.Consumed() == DataOf(calls[..i]) && e.Sent() == AfterCalls(calls[..i])
    modifies e, e.nonce, e.buf
    ensures r.Ok? ==> e.Valid() && e.Consumed() == DataOf(calls[..i + 1]) && e.Sent() == AfterCalls(calls[..i + 1])
    ensures r.Err? ==> 2 * FramesNeeded(calls) >= Pow256(e.key.nonceWidth)
  {
    assert calls[..i + 1][..i] == calls[..i];
    FramesGrow(calls, i + 1);
    NoncesLasted(e);
    r := Apply(e, calls[i]);
  }

  method Apply(e: Encryptor, call: Call) returns (r: Result<(), EncryptionError>)
    requires e.Valid()
    modifies e, e.nonce, e.buf
    ensures r.Ok? ==> e.Valid() && e.Consumed() == old(e.Consumed()) + DataIn(call) && e.Sent() == AfterCall(old(e.Sent()), call)
    ensures r.Ok? <==> 2 * AfterCall(old(e.Sent()), call).frames < Pow256(e.key.nonceWidth)
  {
    NoncesLasted(e);
    match call
    case ConsumeByte(b) => r := e.Consume(b);
    case ConsumeBulk(bytes) => r := ConsumeAll(e, bytes);
    case FlushNow => r := e.Flush();
  }

  /** Any calls on the sending side, a close, and a receiver that gets the first `arriving` bytes of the wire.
      Sending fails exactly if there are more frames than pairs of nonces, and one nonce for the end. */
  method Transmit<F>(key: Aead, calls: seq<Call>, end: WireEnd<F>, arriving: nat)
      returns (sent: Result<(), EncryptionError>, complete: bool, received: seq<byte>, ended: Result<F, DecryptionError>)
    requires Lawful(key)
    ensures sent.Ok? <==> 2 * FramesNeeded(calls) + 1 < Pow256(key.nonceWidth)
    ensures sent.Ok? ==> (complete <==> arriving >= StreamLength(key, FramesNeeded(calls), |DataOf(calls)|))
    ensures sent.Ok? ==> received <= DataOf(calls)
    ensures sent.Ok? && complete ==> received == DataOf(calls)
    ensures sent.Ok? && complete ==> ended == if end.FinalValue? then Ok(end.value) else Err(Inner)
    ensures sent.Ok? && !complete ==> ended == Err(CutError(end))
  {
    complete, received, ended := false, [], Err(Inner);
    var e;
    sent, e := Send(key, calls);
    if sent.Err? { return; }
    complete, received, ended := ReceiveSome(key, e.wire, end, arriving, e.chunks);
  }

  method Send(key: Aead, calls: seq<Call>) returns (sent: Result<(), EncryptionError>, e: Encryptor)
    requires Lawful(key)
    ensures sent.Ok? <==> 2 * FramesNeeded(calls) + 1 < Pow256(key.nonceWidth)
    ensures sent.Ok? ==> ValidChunks(e.chunks) && e.wire == Stream(key, 0, e.chunks)
    ensures sent.Ok? ==> Concat(e.chunks) == DataOf(calls) && |e.chunks| == FramesNeeded(calls)
  {
    e := new Encryptor(key);
    for i := 0 to |calls|
      invariant e.Valid() && e.Consumed() == DataOf(calls[..i]) && e.Sent() == AfterCalls(calls[..i])
      invariant fresh(e) && fresh(e.nonce) && fresh(e.buf) && e.key == key
    {
      sent := ApplyNext(e, calls, i);
      if sent.Err? { return; }
    }
    assert calls[..|calls|] == calls;
    sent := e.Close();
  }

  /** How long a stream is on the wire: two tags and a length for each frame, and one more of each at the end. */
  function StreamLength(key: Aead, frames: nat, bytes: nat): nat {
    frames * (2 * key.tagWidth + 2) + bytes + key.tagWidth + 2
  }

  lemma FrameLength(key: Aead, n: nat, chunk: seq<byte>)
    requires Lawful(key)
    ensures |Frame(key, n, chunk)| == 2 * key.tagWidth + 2 + |chunk|
  {}

  lemma {:induction false} FramesLength(key: Aead, n: nat, chunks: seq<seq<byte>>)
    requires Lawful(key)
    ensures |Frames(key, n, chunks)| == |chunks| * (2 * key.tagWidth + 2) + |Concat(chunks)|
    decreases |chunks|
  {
    if chunks != [] {
      FramesLength(key, n + 2, chunks[1..]);
      FrameLength(key, n, chunks[0]);
      OneMoreFrame(|chunks| - 1, 2 * key.tagWidth + 2);
    }
  }

  lemma StreamIsThatLong(key: Aead, chunks: seq<seq<byte>>)
    requires Lawful(key)
    ensures |Stream(key, 0, chunks)| == StreamLength(key, |chunks|, |Concat(chunks)|)
  {
    FramesLength(key, 0, chunks);
    assert |ClosingHeader(key, 2 * |chunks|)| == key.tagWidth + 2;
  }

  lemma OneMoreFrame(frames: nat, width: nat)
    ensures (frames + 1) * width == frames * width + width
  {}

  method ReceiveSome<F>(key: Aead, wire: seq<byte>, end: WireEnd<F>, arriving: nat, ghost chunks: seq<seq<byte>>)
      returns (complete: bool, received: seq<byte>, ended: Result<F, DecryptionError>)
    requires Lawful(key) && ValidChunks(chunks) && 2 * |chunks| + 1 < Pow256(key.nonceWidth) && wire == Stream(key, 0, chunks)
    ensures complete <==> arriving >= StreamLength(key, |chunks|, |Concat(chunks)|)
    ensures received <= Concat(chunks)
    ensures complete ==> received == Concat(chunks) && ended == AfterClosing(end, []).end
    ensures !complete ==> ended == Err(CutError(end))
  {
    complete := |wire| <= arriving;
    var n := if complete then |wire| else arriving;
    assert wire[..n] + wire[n..] == wire;
    StreamArrives(key, end, 0, chunks, wire[..n], wire[n..]);
    StreamIsThatLong(key, chunks);
    received, ended := Receive(key, wire[..n], end);
  }

  /** Produce until the end. */
  method Receive<F>(key: Aead, wire: seq<byte>, end: WireEnd<F>) returns (received: seq<byte>, ended: Result<F, DecryptionError>)
    ensures Outcome(received, ended) == Decoded(key, end, 0, wire)
  {
    var d := new Decryptor(key, wire, end);
    ghost var all := Decoded(key, end, 0, wire);
    received := [];
    BehindNothing(received, all);
    while true
      invariant fresh(d) && fresh(d.nonce) && fresh(d.buf) && d.Valid()
      invariant Behind(received, d.Future()) == all
      decreases |d.Future().bytes|
    {
      ghost var future := d.Future();
      var r := d.Produce();
      if r.Ok? && r.value.Item? {
        BehindStep(received, future);
        received := received + [r.value.item];
      } else {
        BehindAll(received, future);
        return received, EndOf(r);
      }
    }
  }

  function EndOf<F>(r: Result<Produced<F>, DecryptionError>): Result<F, DecryptionError>
    requires r.Ok? ==> r.value.Final?
  {
    match r case Ok(p) => Ok(p.value) case Err(e) => Err(e)
  }

  lemma BehindStep<F>(received: seq<byte>, o: Outcome<F>)
    requires o.bytes != []
    ensures Behind(received + [o.bytes[0]], RestOf(o)) == Behind(received, o)
  {
    assert o.bytes == [o.bytes[0]] + o.bytes[1..];
    assert (received + [o.bytes[0]]) + o.bytes[1..] == received + ([o.bytes[0]] + o.bytes[1..]);
  }

  lemma BehindAll<F>(received: seq<byte>, o: Outcome<F>)
    requires o.bytes == []
    ensures Behind(received, o) == Outcome(received, o.end)
  {
    assert received + o.bytes == received;
  }
}
