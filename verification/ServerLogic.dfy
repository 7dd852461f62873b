/** The server's end of a logical channel: a bounded buffer, what is dropped, and the credit to give. */
module ServerLogic {
  import opened Wrappers
  import opened ByteStrings
  import opened Guarantees

  datatype SourceEnd = FinalValue | SourceFailure

  /** Where message bytes come from: slices of any size, and then an end. */
  class ByteSource {
    var data: seq<byte>
    const end: SourceEnd

    constructor (data: seq<byte>, end: SourceEnd)
      ensures this.data == data && this.end == end
    {
      this.data, this.end := data, end;
    }

    /** Some of the next bytes, at least one unless there are none. */
    method ExposeItems() returns (items: seq<byte>)
      ensures items <= data && (items == [] <==> data == [])
    {
      if data == [] { return []; }
      var n :| 0 < n <= |data|;
      return data[..n];
    }

    method ConsiderProduced(n: nat)
      requires n <= |data|
      modifies this`data
      ensures data == old(data)[n..]
    {
      data := data[n..];
    }
  }

  datatype BufferEnd = StillOpen | Closed | Errored

  /** What the announcer of dropping is told. */
  datatype DropNotice = Announce | NeverAgain | ClientError

  datatype ReceiveError = UnexpectedEndOfInput | ProducerError | DisrespectedLimitSending

  function EndError(end: SourceEnd): ReceiveError {
    if end.FinalValue? then UnexpectedEndOfInput else ProducerError
  }

  /** What becomes of a message by its length alone. */
  datatype Fate = Dropped | Rejected | Unwanted | Accepted

  function Judge(dropping: bool, room: nat, bound: Option<U64>, receiveLimit: Option<U64>, length: U64): Fate {
    if dropping || length > room then Dropped
    else if bound.Some? && length > bound.value then Rejected
    else if receiveLimit.Some? && length > receiveLimit.value then Unwanted
    else Accepted
  }

  /** What remains of a limit on receiving. */
  function Lowered(receiveLimit: Option<U64>, length: U64): Option<U64> {
    if receiveLimit.None? then None else Some(if length < receiveLimit.value then receiveLimit.value - length else 0)
  }

  class ServerState {
    const maxQueueCapacity: U64
    const watermark: U64
    var buffer: seq<byte>
    var end: BufferEnd
    var currentlyDropping: bool
    var startDropping: Option<DropNotice>
    const bound: GuaranteeBoundCell
    /** How many bytes are wanted at most. */
    var receiveLimit: Option<U64>
    const guarantees: GuaranteeCellWithoutBound

    ghost predicate Valid()
      reads this
    {
      |buffer| <= maxQueueCapacity
    }

    /** Buffered bytes and credit still to be given fit into the capacity. */
    ghost predicate Accounted()
      reads this, guarantees
    {
      |buffer| + guarantees.acc <= maxQueueCapacity
    }

    /** The client did not limit what it sends, and nobody limits what is received. */
    ghost predicate Unlimited()
      reads this, bound
    {
      bound.bound.None? && receiveLimit.None?
    }

    ghost function CreditOut(): int
      reads this, guarantees
    {
      maxQueueCapacity - (|buffer| + guarantees.acc)
    }

    constructor (maxQueueCapacity: U64, watermark: U64)
      ensures Valid() && Accounted() && this.maxQueueCapacity == maxQueueCapacity && this.watermark == watermark
      ensures buffer == [] && end == StillOpen && !currentlyDropping && startDropping.None?
      ensures fresh(bound) && bound.bound.None? && receiveLimit.None?
      ensures fresh(guarantees) && guarantees.State() == ServerCell(maxQueueCapacity, None, None, false)
    {
      this.maxQueueCapacity, this.watermark := maxQueueCapacity, watermark;
      buffer, end, currentlyDropping, startDropping, receiveLimit := [], StillOpen, false, None, None;
      bound := new GuaranteeBoundCell();
      guarantees := new GuaranteeCellWithoutBound();
      new;
      var r := guarantees.AddGuarantees(maxQueueCapacity);
    }

    /** Nothing more will arrive, because a bound was exactly reached. */
    method BoundOfZero()
      modifies this`end, this`startDropping, guarantees`notify
      ensures end == (if old(end) == StillOpen then Closed else old(end))
      ensures startDropping == if receiveLimit == Some(0) then old(startDropping) else Some(NeverAgain)
      ensures guarantees.State() == old(guarantees.State()).(notify := Some(Final))
    {
      if end == StillOpen { end := Closed; }
      if receiveLimit != Some(0) { startDropping := Some(NeverAgain); }
      guarantees.SetFinal();
    }

    method ReportError()
      modifies this`end, this`startDropping, guarantees`notify
      ensures end == (if old(end) == StillOpen then Errored else old(end)) && startDropping == Some(ClientError)
      ensures guarantees.State() == old(guarantees.State()).(notify := Some(Error))
    {
      if end == StillOpen { end := Errored; }
      startDropping := Some(ClientError);
      guarantees.SetError();
    }

    /** A data message. It is buffered as a whole if there is room and the client's own bound allows it;
        without room, this one and all that follow are dropped until an apology. A message beyond a limit
        on receiving is discarded in silence. Only the room is checked: a message beyond the client's
        credit may be buffered and then upsets the accounts. */
    method ReceiveSendToChannel(length: U64, p: ByteSource) returns (r: Result<(), ReceiveError>)
      requires Valid()
      modifies this`buffer, this`end, this`currentlyDropping, this`startDropping, this`receiveLimit, bound, guarantees, p`data
      ensures Valid() && guarantees.acc == old(guarantees.acc)
      ensures var fate := old(Judge(currentlyDropping, maxQueueCapacity - |buffer|, bound.bound, receiveLimit, length));
        && (currentlyDropping <==> fate.Dropped?)
        && (fate.Accepted? && length <= |old(p.data)| ==> r == Ok(()) && buffer == old(buffer) + old(p.data)[..length])
        && (!fate.Accepted? ==> buffer == old(buffer))
        && (fate.Rejected? ==> r == Err(DisrespectedLimitSending) && p.data == old(p.data))
        && (!fate.Rejected? && length <= |old(p.data)| ==> r == Ok(()) && p.data == old(p.data)[length..])
        && (!fate.Rejected? && length > |old(p.data)| ==> r == Err(EndError(p.end)))
        && (fate.Accepted? || fate.Unwanted? ==>
              bound.bound == Spent(old(bound.bound), length).0 && receiveLimit == Lowered(old(receiveLimit), length))
        && (fate.Dropped? || fate.Rejected? ==> bound.bound == old(bound.bound) && receiveLimit == old(receiveLimit))
        && (receiveLimit == Some(0) && (fate.Unwanted? || fate.Accepted?) ==> end != StillOpen)
        && (fate.Dropped? && !old(currentlyDropping) && length <= |old(p.data)| ==> startDropping == Some(Announce))
        && (fate.Accepted? && length <= |old(p.data)| && old(Accounted()) ==>
              (Accounted() <==> length <= old(CreditOut())))
      ensures currentlyDropping <==> old(currentlyDropping) || |old(buffer)| + length > maxQueueCapacity
      ensures old(currentlyDropping) && length <= |old(p.data)| ==>
        end == old(end) && startDropping == old(startDropping) && guarantees.State() == old(guarantees.State())
      ensures currentlyDropping && !old(currentlyDropping) && length <= |old(p.data)| ==>
        && end == old(end) && startDropping == Some(Announce)
        && guarantees.State() == if old(guarantees.acc) > 0 then ForceGive(old(guarantees.State())) else old(guarantees.State())
      ensures r.Err? ==>
        end != StillOpen && startDropping == Some(ClientError) && guarantees.notify == Some(Error)
      ensures !currentlyDropping && r.Ok? ==>
        var reached := bound.bound == Some(0) || receiveLimit == Some(0);
        && end == (if reached && old(end) == StillOpen then Closed else old(end))
        && startDropping == (if bound.bound == Some(0) && old(receiveLimit) != Some(0) then Some(NeverAgain) else old(startDropping))
        && guarantees.State() == (if reached then old(guarantees.State()).(notify := Some(Final)) else old(guarantees.State()))
      ensures r == Err(DisrespectedLimitSending) <==>
        !currentlyDropping && old(bound.bound).Some? && length > old(bound.bound).value
      ensures old(Unlimited()) && !currentlyDropping && length <= |old(p.data)| ==>
        Unlimited() && guarantees.State() == old(guarantees.State())
      ensures old(Accounted() && Unlimited() && !currentlyDropping) && length <= old(CreditOut()) && length <= |old(p.data)| ==>
        && r == Ok(()) && buffer == old(buffer) + old(p.data)[..length] && p.data == old(p.data)[length..]
        && Accounted() && !currentlyDropping
    {
      if currentlyDropping {
        r := DropProducerData(length, p);
        return;
      }
      if length > maxQueueCapacity - |buffer| {
        currentlyDropping := true;
        if guarantees.acc > 0 { guarantees.MustClear(); }
        startDropping := Some(Announce);
        r := DropProducerData(length, p);
        return;
      }
      var used := bound.UseUp(length);
      match used
      case Err(_) =>
        ReportError();
        return Err(DisrespectedLimitSending);
      case Ok(remaining) =>
        if remaining == Some(0) { BoundOfZero(); }
        var wanted := KeepToLimit(length);
        if wanted { r := BufferProducerData(length, p); } else { r := DropProducerData(length, p); }
    }

    /** Whether the limit on receiving leaves room for a message; whoever reaches it ends the channel. */
    method KeepToLimit(length: U64) returns (wanted: bool)
      modifies this`end, this`startDropping, this`receiveLimit, guarantees`notify
      ensures receiveLimit == Lowered(old(receiveLimit), length)
      ensures wanted <==> old(receiveLimit).None? || length <= old(receiveLimit).value
      ensures receiveLimit == Some(0) ==>
        && end == (if old(end) == StillOpen then Closed else old(end)) && startDropping == old(startDropping)
        && guarantees.State() == old(guarantees.State()).(notify := Some(Final))
      ensures receiveLimit != Some(0) ==>
        end == old(end) && startDropping == old(startDropping) && guarantees.State() == old(guarantees.State())
    {
      if receiveLimit.None? { return true; }
      wanted := length <= receiveLimit.value;
      if length < receiveLimit.value {
        receiveLimit := Some(receiveLimit.value - length);
      } else {
        receiveLimit := Some(0);
        BoundOfZero();
      }
    }

    method BufferProducerData(length: U64, p: ByteSource) returns (r: Result<(), ReceiveError>)
      requires |buffer| + length <= maxQueueCapacity
      modifies this`buffer, this`end, this`startDropping, guarantees`notify, p`data
      ensures |buffer| <= maxQueueCapacity
      ensures length <= |old(p.data)| ==>
        r == Ok(()) && buffer == old(buffer) + old(p.data)[..length] && p.data == old(p.data)[length..]
      ensures length <= |old(p.data)| ==>
        end == old(end) && startDropping == old(startDropping) && guarantees.State() == old(guarantees.State())
      ensures length > |old(p.data)| ==> r == Err(EndError(p.end)) && end != StillOpen && startDropping == Some(ClientError)
      ensures length > |old(p.data)| ==> guarantees.notify == Some(Error)
    {
      var remaining: nat := length;
      while remaining > 0
        invariant 0 <= remaining <= length
        invariant length - remaining <= |old(p.data)|
        invariant p.data == old(p.data)[length - remaining..]
        invariant buffer == old(buffer) + old(p.data)[..length - remaining]
        invariant end == old(end) && startDropping == old(startDropping) && guarantees.State() == old(guarantees.State())
      {
        var items := p.ExposeItems();
        if items == [] {
          ReportError();
          return Err(EndError(p.end));
        }
        var n := if |items| < remaining then |items| else remaining;
        buffer := buffer + items[..n];
        p.ConsiderProduced(n);
        remaining := remaining - n;
      }
      return Ok(());
    }

    method DropProducerData(length: U64, p: ByteSource) returns (r: Result<(), ReceiveError>)
      modifies this`end, this`startDropping, guarantees`notify, p`data
      ensures length <= |old(p.data)| ==> r == Ok(()) && p.data == old(p.data)[length..]
      ensures length <= |old(p.data)| ==>
        end == old(end) && startDropping == old(startDropping) && guarantees.State() == old(guarantees.State())
      ensures length > |old(p.data)| ==> r == Err(EndError(p.end)) && end != StillOpen && startDropping == Some(ClientError)
      ensures length > |old(p.data)| ==> guarantees.notify == Some(Error)
    {
      var remaining: nat := length;
      while remaining > 0
        invariant 0 <= remaining <= length
        invariant length - remaining <= |old(p.data)|
        invariant p.data == old(p.data)[length - remaining..]
        invariant end == old(end) && startDropping == old(startDropping) && guarantees.State() == old(guarantees.State())
      {
        var items := p.ExposeItems();
        if items == [] {
          ReportError();
          return Err(EndError(p.end));
        }
        var n := if |items| < remaining then |items| else remaining;
        p.ConsiderProduced(n);
        remaining := remaining - n;
      }
      return Ok(());
    }

    /** The reader takes bytes out, and as much credit becomes available to be given. */
    method TakeReceived(n: U64) returns (r: Result<seq<byte>, ()>)
      requires Valid() && n <= |buffer|
      modifies this`buffer, this`end, this`startDropping, guarantees
      ensures Valid() && buffer == old(buffer)[n..] && (old(Accounted()) ==> Accounted() && r.Ok?)
      ensures r.Ok? ==> r.value == old(buffer)[..n] && guarantees.State() == AddToGive(old(guarantees.State()), n).0
      ensures r.Err? <==> old(guarantees.acc) + n > U64_MAX
      ensures r.Ok? ==> end == old(end) && startDropping == old(startDropping)
      ensures r.Err? ==> end != StillOpen && startDropping == Some(ClientError) && guarantees.notify == Some(Error)
    {
      var items := buffer[..n];
      buffer := buffer[n..];
      var added := guarantees.AddGuarantees(n);
      if added.Err? {
        ReportError();
        return Err(());
      }
      return Ok(items);
    }

    /** What the client holds, as far as the server can tell. */
    function ClientGuarantees(): (n: U64)
      requires Accounted()
      reads this, guarantees
      ensures n == CreditOut()
    {
      maxQueueCapacity - (|buffer| + guarantees.acc)
    }

    /** An absolution counts as bytes that were sent and at once taken out. */
    method ReceiveAbsolve(amount: U64) returns (r: Result<(), ()>)
      requires Valid() && Accounted()
      modifies this`end, this`startDropping, bound, guarantees
      ensures Accounted()
      ensures r.Ok? <==> amount <= old(ClientGuarantees()) && Spent(old(bound.bound), amount).1.Ok?
      ensures r.Ok? ==> ClientGuarantees() == old(ClientGuarantees()) - amount
      ensures r.Ok? ==> guarantees.State() == AddToGive(old(guarantees.State()), amount).0 && bound.bound == Spent(old(bound.bound), amount).0
      ensures r.Ok? ==> end == old(end) && startDropping == old(startDropping)
      ensures r.Err? ==> end != StillOpen && startDropping == Some(ClientError) && guarantees.notify == Some(Error)
      ensures r.Err? ==> bound.bound == old(bound.bound)
      ensures amount > old(ClientGuarantees()) ==> guarantees.acc == old(guarantees.acc)
    {
      if ClientGuarantees() < amount {
        ReportError();
        return Err(());
      }
      var added := guarantees.AddGuarantees(amount);
      assert added.Ok?;
      var used := bound.UseUp(amount);
      if used.Err? {
        ReportError();
        return Err(());
      }
      return Ok(());
    }

    method ReceiveLimitSending(newBound: U64) returns (r: Result<(), ()>)
      modifies this`end, this`startDropping, bound, guarantees`notify
      ensures bound.bound == Bounded(old(bound.bound), newBound).0
      ensures r.Ok? <==> old(bound.bound).None? || newBound <= old(bound.bound).value
      ensures r.Ok? && newBound == 0 ==> end != StillOpen && guarantees.State() == old(guarantees.State()).(notify := Some(Final))
      ensures r.Ok? && newBound == 0 && receiveLimit != Some(0) ==> startDropping == Some(NeverAgain)
      ensures r.Ok? && newBound > 0 ==>
        end == old(end) && startDropping == old(startDropping) && guarantees.State() == old(guarantees.State())
      ensures r.Err? ==> end != StillOpen && startDropping == Some(ClientError) && guarantees.notify == Some(Error)
    {
      var applied := bound.ApplyBound(newBound);
      if applied.Err? {
        ReportError();
        return Err(());
      }
      if newBound == 0 { BoundOfZero(); }
      return Ok(());
    }

    /** An apology is accepted only for a drop that was announced. */
    method ReceiveApologise() returns (r: Result<(), ()>)
      modifies this`end, this`startDropping, this`currentlyDropping, guarantees`notify
      ensures r.Ok? <==> old(currentlyDropping) && old(startDropping).None?
      ensures r.Ok? ==>
        !currentlyDropping && end == old(end) && startDropping.None? && guarantees.State() == old(guarantees.State())
      ensures r.Err? ==> end != StillOpen && guarantees.notify == Some(Error)
      ensures r.Err? ==> currentlyDropping == old(currentlyDropping) && startDropping == Some(ClientError)
    {
      if !currentlyDropping {
        ReportError();
        return Err(());
      }
      if startDropping.Some? {
        ReportError();
        return Err(());
      }
      currentlyDropping := false;
      return Ok(());
    }
  }
}
