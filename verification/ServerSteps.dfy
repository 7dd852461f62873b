/** The server's end of a channel takes the steps of the system that joins both ends. */
module ServerSteps {
  import opened Wrappers
  import opened ByteStrings
  import opened Guarantees
  import opened ServerLogic
  import opened FlowControl

  /** A server is in the state that the joint system describes, between messages. */
  ghost predicate Serves(s: ServerState, c: Channel)
    reads s, s.bound, s.guarantees
  {
    && s.Valid() && s.Unlimited() && c.capacity == s.maxQueueCapacity && c.watermark == s.watermark
    && c.buffered == |s.buffer| && c.receiving == 0 && c.dropping == s.currentlyDropping && c.toGive == s.guarantees.State()
  }

  /** A new server is in the initial state. */
  method Open(capacity: U64, watermark: U64) returns (s: ServerState)
    ensures fresh(s) && Serves(s, Initial(capacity, watermark))
  {
    s := new ServerState(capacity, watermark);
  }

  /** The header of a message, and then all of its bytes. */
  ghost function Received(c: Channel): Outcome
    requires Enabled(c, ReadHeader)
  {
    var length, next := c.toServer[0], Take(c, ReadHeader);
    if next.Dropped? || length == 0 then next else Take(next.c, ReadBytes(length))
  }

  /** The next message of the joint system arrives: the server drops it exactly if the joint system does,
      and otherwise both are in the same state again. */
  method Receive(s: ServerState, p: ByteSource, length: U64, ghost c: Channel) returns (r: Result<(), ReceiveError>)
    requires Serves(s, c) && c.toServer != [] && length == c.toServer[0] && length <= |p.data|
    modifies s`buffer, s`end, s`currentlyDropping, s`startDropping, s`receiveLimit, s.bound, s.guarantees, p`data
    ensures r == Ok(()) && p.data == old(p.data)[length..]
    ensures s.currentlyDropping <==> Received(c).Dropped?
    ensures Received(c).Next? ==> Serves(s, Received(c).c) && s.buffer == old(s.buffer) + old(p.data)[..length]
  {
    r := s.ReceiveSendToChannel(length, p);
  }

  /** In a safe channel, no message is dropped. */
  lemma SafeNotDropped(c: Channel)
    requires Safe(c) && Enabled(c, ReadHeader)
    ensures Received(c).Next? && Safe(Received(c).c)
  {
    StepSafe(c, ReadHeader);
    if c.toServer[0] > 0 { StepSafe(Take(c, ReadHeader).c, ReadBytes(c.toServer[0])); }
  }

  /** The reader takes bytes out. */
  method TakeOut(s: ServerState, n: U64, ghost c: Channel) returns (r: Result<seq<byte>, ()>)
    requires Serves(s, c) && 0 < n <= |s.buffer|
    modifies s`buffer, s`end, s`startDropping, s.guarantees
    ensures r.Ok? <==> Take(c, TakeFromBuffer(n)).Next?
    ensures r.Ok? ==> Serves(s, Take(c, TakeFromBuffer(n)).c) && r.value == old(s.buffer)[..n]
  {
    r := s.TakeReceived(n);
  }

  /** Wait for enough credit to give. */
  method StartToGive(s: ServerState, ghost c: Channel)
    requires Serves(s, c) && c.giver.Between?
    modifies s.guarantees
    ensures Serves(s, Take(c, StartGiving).c)
  {
    s.guarantees.BeginAwaitThreshold(s.watermark);
  }

  /** Give all the credit there is. */
  method Give(s: ServerState, ghost c: Channel) returns (given: Given)
    requires Serves(s, c) && Enabled(c, WakeGiver)
    modifies s.guarantees
    ensures Serves(s, Take(c, WakeGiver).c) && given == Amount(Take(c, WakeGiver).c.giver.amount)
  {
    given := s.guarantees.FinishAwaitThreshold();
  }
}
