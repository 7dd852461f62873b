/** One logical channel with both of its ends: a client that sends within the credit it holds, a
    server that buffers what arrives and gives credit back for what its reader takes out, and a
    queue of messages in each direction. */
module FlowControl {
  import opened Wrappers
  import opened Guarantees

  /** The sending end: idle, waiting for credit, or holding a message paid for but not yet written. */
  datatype Sender = Idle | Waiting(size: U64) | Sending(size: U64)

  /** The giving end: between turns, parked in the cell, or holding an amount not yet written. */
  datatype Giver = Between | Parked | Giving(amount: U64)

  datatype Channel = Channel(
    capacity: U64, watermark: U64,
    sender: Sender, cell: ClientCell,
    toServer: seq<U64>, receiving: nat, buffered: nat, dropping: bool,
    toGive: ServerCell, giver: Giver, toClient: seq<U64>)

  function Sum(xs: seq<U64>): nat {
    if xs == [] then 0 else xs[0] + Sum(xs[1..])
  }

  lemma {:induction false} SumSnoc(xs: seq<U64>, x: U64)
    ensures Sum(xs + [x]) == Sum(xs) + x
  {
    if xs == [] {
      assert xs + [x] == [x] && [x][1..] == [];
    } else {
      assert (xs + [x])[1..] == xs[1..] + [x];
      SumSnoc(xs[1..], x);
    }
  }

  function InitialToGive(capacity: U64): ServerCell {
    AddToGive(ServerCell(0, None, None, false), capacity).0
  }

  function Initial(capacity: U64, watermark: U64): Channel {
    Channel(capacity, watermark, Idle, NEW_CLIENT_CELL, [], 0, 0, false, InitialToGive(capacity), Between, [])
  }

  // ---------------------------------------------------------------- steps

  datatype Step =
    | Request(size: U64)
    | WakeSender
    | WriteMessage
    | ReadHeader
    | ReadBytes(n: nat)
    | TakeFromBuffer(n: nat)
    | StartGiving
    | WakeGiver
    | WriteGuarantee
    | ReadGuarantee

  predicate Enabled(c: Channel, step: Step) {
    match step
    case Request(_) => c.sender.Idle?
    case WakeSender => c.sender.Waiting? && c.cell.notify.Some?
    case WriteMessage => c.sender.Sending?
    case ReadHeader => c.receiving == 0 && c.toServer != []
    case ReadBytes(n) => 0 < n <= c.receiving
    case TakeFromBuffer(n) => 0 < n <= c.buffered
    case StartGiving => c.giver.Between?
    case WakeGiver => c.giver.Parked? && c.toGive.notify == Some(Ready)
    case WriteGuarantee => c.giver.Giving?
    case ReadGuarantee => c.toClient != []
  }

  /** Faults are the branches of the code that a conformant peer never makes it take. */
  datatype Outcome = Next(c: Channel) | Dropped | CreditOverflow | CreditUnderflow

  function Take(c: Channel, step: Step): Outcome
    requires Enabled(c, step)
  {
    match step
    case Request(size) => Next(c.(sender := Waiting(size), cell := BeginAwait(c.cell, size)))
    case WakeSender =>
      if c.cell.notify.value.YayReached? && c.cell.acc < c.sender.size then CreditUnderflow
      else
        var (cell, r) := FinishAwait(c.cell, c.sender.size);
        Next(c.(cell := cell, sender := if r.YayReached? then Sending(c.sender.size) else Idle))
    case WriteMessage => Next(c.(sender := Idle, toServer := c.toServer + [c.sender.size]))
    case ReadHeader =>
      if c.dropping || c.toServer[0] > c.capacity - c.buffered then Dropped
      else Next(c.(toServer := c.toServer[1..], receiving := c.toServer[0]))
    case ReadBytes(n) => Next(c.(receiving := c.receiving - n, buffered := c.buffered + n))
    case TakeFromBuffer(n) =>
      if c.toGive.acc + n > U64_MAX then CreditOverflow
      else Next(c.(buffered := c.buffered - n, toGive := AddToGive(c.toGive, n).0))
    case StartGiving => Next(c.(giver := Parked, toGive := BeginGive(c.toGive, c.watermark)))
    case WakeGiver =>
      var (cell, given) := FinishGive(c.toGive);
      Next(c.(toGive := cell, giver := Giving(given.amount)))
    case WriteGuarantee => Next(c.(giver := Between, toClient := c.toClient + [c.giver.amount]))
    case ReadGuarantee =>
      var (cell, r) := GrantClient(c.cell, c.toClient[0]);
      if r.Err? then CreditOverflow else Next(c.(toClient := c.toClient[1..], cell := cell))
  }

  // ---------------------------------------------------------------- conservation

  function PaidFor(s: Sender): nat {
    if s.Sending? then s.size else 0
  }

  function InHand(g: Giver): nat {
    if g.Giving? then g.amount else 0
  }

  /** Credit wherever it is: to be given, being given, held, spent, in transit, buffered. */
  function Total(c: Channel): nat {
    c.toGive.acc + InHand(c.giver) + Sum(c.toClient) + c.cell.acc
    + PaidFor(c.sender) + Sum(c.toServer) + c.receiving + c.buffered
  }

  predicate SenderOk(c: Channel) {
    match c.sender
    case Waiting(size) => WaitsFor(c.cell, size)
    case Idle => NobodyWaits(c.cell)
    case Sending(_) => NobodyWaits(c.cell)
  }

  predicate GiverOk(c: Channel) {
    match c.giver
    case Parked => GiverWaits(c.toGive, c.watermark)
    case Between => NoGiver(c.toGive)
    case Giving(_) => NoGiver(c.toGive)
  }

  predicate Safe(c: Channel) {
    Total(c) == c.capacity && c.cell.bound.None? && !c.dropping && SenderOk(c) && GiverOk(c)
  }

  lemma InitiallySafe(capacity: U64, watermark: U64)
    ensures Safe(Initial(capacity, watermark))
  {}

  /** No step of a safe channel drops a message, overflows or underflows, and all keep it safe. */
  lemma StepSafe(c: Channel, step: Step)
    requires Safe(c) && Enabled(c, step)
    ensures Take(c, step).Next? && Safe(Take(c, step).c)
    ensures Take(c, step).c.capacity == c.capacity && Take(c, step).c.watermark == c.watermark
  {
    match step
    case Request(size) => WaitBegins(c.cell, size);
    case WakeSender => WaitEnds(c.cell, c.sender.size);
    case WriteMessage => SumSnoc(c.toServer, c.sender.size);
    case ReadHeader =>
    case ReadBytes(_) =>
    case TakeFromBuffer(n) =>
      if c.giver.Parked? { GiverKeepsWaiting(c.toGive, c.watermark, n); }
    case StartGiving =>
    case WakeGiver =>
    case WriteGuarantee => SumSnoc(c.toClient, c.giver.amount);
    case ReadGuarantee =>
      if c.sender.Waiting? { WaitContinues(c.cell, c.sender.size, Grant(c.toClient[0])); }
  }

  predicate IsRun(c: Channel, steps: seq<Step>)
    decreases |steps|
  {
    steps == [] || (Enabled(c, steps[0]) && (Take(c, steps[0]).Next? ==> IsRun(Take(c, steps[0]).c, steps[1..])))
  }

  function Run(c: Channel, steps: seq<Step>): Outcome
    requires IsRun(c, steps)
    decreases |steps|
  {
    if steps == [] then Next(c)
    else
      var next := Take(c, steps[0]);
      if next.Next? then Run(next.c, steps[1..]) else next
  }

  /** Every run of client and server from the beginning ends safely: credit is conserved, nothing
      is ever dropped, and no counter leaves its range. */
  lemma {:induction false} RunSafe(c: Channel, steps: seq<Step>)
    requires Safe(c) && IsRun(c, steps)
    ensures Run(c, steps).Next? && Safe(Run(c, steps).c)
    ensures Run(c, steps).c.capacity == c.capacity && Run(c, steps).c.watermark == c.watermark
    decreases |steps|
  {
    if steps != [] {
      StepSafe(c, steps[0]);
      RunSafe(Take(c, steps[0]).c, steps[1..]);
    }
  }

  /** What the server believes the client to hold: it never underflows, and it is what is not on the server's side. */
  lemma ClientGuaranteesExact(c: Channel)
    requires Safe(c)
    ensures c.buffered + c.toGive.acc <= c.capacity
    ensures c.capacity - (c.buffered + c.toGive.acc) ==
      InHand(c.giver) + Sum(c.toClient) + c.cell.acc + PaidFor(c.sender) + Sum(c.toServer) + c.receiving
  {}

  // ---------------------------------------------------------------- progress

  /** Nothing can happen unless the client asks to send. */
  ghost predicate Quiet(c: Channel) {
    forall step: Step | !step.Request? :: !Enabled(c, step)
  }

  /** In a quiet channel all credit is on the two shelves, and the server keeps less than the watermark. */
  lemma QuietCredit(c: Channel)
    requires Safe(c) && Quiet(c)
    ensures c.cell.acc + c.toGive.acc == c.capacity && c.toGive.acc < c.watermark
    ensures c.watermark > 0 && c.cell.acc + c.watermark >= c.capacity + 1
    ensures c.sender.Waiting? ==> c.cell.acc < c.sender.size
    ensures !c.sender.Sending?
  {
    assert !Enabled(c, StartGiving) && !Enabled(c, WakeGiver) && !Enabled(c, WriteGuarantee);
    assert !Enabled(c, ReadGuarantee) && !Enabled(c, WriteMessage) && !Enabled(c, WakeSender);
    assert !Enabled(c, ReadBytes(c.receiving)) && !Enabled(c, TakeFromBuffer(c.buffered)) && !Enabled(c, ReadHeader);
  }

  ghost predicate Reachable(c: Channel) {
    exists steps :: IsRun(Initial(c.capacity, c.watermark), steps) && Run(Initial(c.capacity, c.watermark), steps) == Next(c)
  }

  /** A sender can be stuck with a message in a quiet channel. */
  ghost predicate CanGetStuck(capacity: U64, watermark: U64, size: U64) {
    exists c :: Reachable(c) && c.capacity == capacity && c.watermark == watermark && Quiet(c) && c.sender == Waiting(size)
  }

  lemma {:induction false} RunSnoc(c: Channel, steps: seq<Step>, step: Step)
    requires IsRun(c, steps) && Run(c, steps).Next? && Enabled(Run(c, steps).c, step)
    ensures IsRun(c, steps + [step]) && Run(c, steps + [step]) == Take(Run(c, steps).c, step)
    decreases |steps|
  {
    if steps == [] {
      assert steps + [step] == [step] && [step][1..] == [];
    } else {
      assert (steps + [step])[1..] == steps[1..] + [step];
      RunSnoc(Take(c, steps[0]).c, steps[1..], step);
    }
  }

  lemma Reach(c: Channel, step: Step) returns (c': Channel)
    requires Reachable(c) && Safe(c) && Enabled(c, step)
    ensures Take(c, step) == Next(c') && Reachable(c') && Safe(c')
  {
    StepSafe(c, step);
    c' := Take(c, step).c;
    var start := Initial(c.capacity, c.watermark);
    var steps :| IsRun(start, steps) && Run(start, steps) == Next(c);
    RunSnoc(start, steps, step);
  }

  lemma InitiallyReachable(capacity: U64, watermark: U64)
    ensures Reachable(Initial(capacity, watermark)) && Safe(Initial(capacity, watermark))
  {
    var c := Initial(capacity, watermark);
    assert IsRun(c, []) && Run(c, []) == Next(c);
  }

  /** The server keeps `watermark - 1` bytes of credit to itself, and the client asks for too much. */
  lemma StuckRun(capacity: U64, watermark: U64, size: U64)
    requires 1 <= watermark <= capacity && size > capacity - watermark + 1
    ensures CanGetStuck(capacity, watermark, size)
  {
    var c := HoldingEverything(capacity, watermark);
    if watermark > 1 {
      c := ArrivedAtServer(c, watermark - 1);
      c := Reach(c, TakeFromBuffer(watermark - 1));
    }
    c := Reach(c, Request(size));
    forall step: Step | !step.Request? ensures !Enabled(c, step) {}
  }

  /** A message that the client has the credit for travels into the buffer of the server. */
  lemma ArrivedAtServer(c: Channel, n: U64) returns (c': Channel)
    requires Reachable(c) && Safe(c) && 0 < n <= c.cell.acc
    requires c.sender.Idle? && c.toServer == [] && c.receiving == 0 && c.buffered == 0
    ensures Reachable(c') && Safe(c') && c' == c.(cell := c.cell.(acc := c.cell.acc - n), buffered := n)
  {
    c' := Reach(c, Request(n));
    c' := Reach(c', WakeSender);
    c' := Reach(c', WriteMessage);
    c' := Reach(c', ReadHeader);
    c' := Reach(c', ReadBytes(n));
  }

  lemma HoldingEverything(capacity: U64, watermark: U64) returns (c: Channel)
    requires 1 <= watermark <= capacity
    ensures Reachable(c) && Safe(c) && c.capacity == capacity && c.watermark == watermark
    ensures c.sender.Idle? && c.cell == ClientCell(capacity, None, None, None) && c.toServer == [] && c.toClient == []
    ensures c.receiving == 0 && c.buffered == 0 && c.giver.Parked?
    ensures c.toGive.acc == 0 && c.toGive.notify.None?
  {
    c := Initial(capacity, watermark);
    InitiallyReachable(capacity, watermark);
    c := Reach(c, StartGiving);
    c := Reach(c, WakeGiver);
    c := Reach(c, WriteGuarantee);
    c := Reach(c, StartGiving);
    c := Reach(c, ReadGuarantee);
  }

  /** With a watermark that the capacity never reaches, the server gives nothing at all. */
  lemma NothingGiven(capacity: U64, watermark: U64, size: U64)
    requires capacity < watermark && size > 0
    ensures CanGetStuck(capacity, watermark, size)
  {
    InitiallyReachable(capacity, watermark);
    var c := Reach(Initial(capacity, watermark), StartGiving);
    c := Reach(c, Request(size));
    forall step: Step | !step.Request? ensures !Enabled(c, step) {}
  }

  /** The longest message that a quiet channel always has the credit for. */
  function AlwaysSendable(capacity: U64, watermark: U64): nat {
    if watermark > capacity then 0 else capacity - watermark + 1
  }

  /** Exactly the messages longer than `capacity - watermark + 1` can get stuck, and with a watermark
      above the capacity all that are not empty. With a watermark of zero no channel is ever quiet. */
  lemma StuckIff(capacity: U64, watermark: U64, size: U64)
    ensures CanGetStuck(capacity, watermark, size) <==> watermark > 0 && size > AlwaysSendable(capacity, watermark)
  {
    if CanGetStuck(capacity, watermark, size) {
      var c :| Reachable(c) && c.capacity == capacity && c.watermark == watermark && Quiet(c) && c.sender == Waiting(size);
      var steps :| IsRun(Initial(capacity, watermark), steps) && Run(Initial(capacity, watermark), steps) == Next(c);
      InitiallySafe(capacity, watermark);
      RunSafe(Initial(capacity, watermark), steps);
      QuietCredit(c);
    }
    if watermark > 0 && size > AlwaysSendable(capacity, watermark) {
      if watermark > capacity { NothingGiven(capacity, watermark, size); } else { StuckRun(capacity, watermark, size); }
    }
  }

  // ---------------------------------------------------------------- termination

  function SenderWork(s: Sender): nat {
    match s
    case Idle => 0
    case Waiting(size) => 80 * size + 4
    case Sending(size) => 80 * size + 3
  }

  function GiverWork(g: Giver): nat {
    match g
    case Parked => 0
    case Between => 1
    case Giving(amount) => 30 * amount + 3
  }

  /** Work left until the channel is quiet: bytes weigh less the further they have come. */
  function Work(c: Channel): nat {
    SenderWork(c.sender) + 70 * Sum(c.toServer) + 2 * |c.toServer| + 60 * c.receiving + 50 * c.buffered
    + 40 * c.toGive.acc + GiverWork(c.giver) + 20 * Sum(c.toClient) + |c.toClient|
  }

  /** Every step but a new request is progress. */
  lemma StepProgress(c: Channel, step: Step)
    requires Safe(c) && Enabled(c, step) && !step.Request? && c.watermark > 0
    ensures Take(c, step).Next? && Work(Take(c, step).c) < Work(c)
  {
    StepSafe(c, step);
    if step.WakeSender? || step.WriteMessage? || step.ReadGuarantee? {
      ClientProgress(c, step);
    } else {
      ServerProgress(c, step);
    }
  }

  lemma ClientProgress(c: Channel, step: Step)
    requires Enabled(c, step) && (step.WakeSender? || step.WriteMessage? || step.ReadGuarantee?) && Take(c, step).Next?
    ensures Work(Take(c, step).c) < Work(c)
  {
    match step
    case WriteMessage => SumSnoc(c.toServer, c.sender.size);
    case WakeSender =>
    case ReadGuarantee =>
  }

  lemma ServerProgress(c: Channel, step: Step)
    requires Enabled(c, step) && GiverOk(c) && c.watermark > 0 && Take(c, step).Next?
    requires step.ReadHeader? || step.ReadBytes? || step.TakeFromBuffer? || step.StartGiving? || step.WakeGiver? || step.WriteGuarantee?
    ensures Work(Take(c, step).c) < Work(c)
  {
    match step
    case WriteGuarantee => SumSnoc(c.toClient, c.giver.amount);
    case ReadHeader =>
    case ReadBytes(_) =>
    case TakeFromBuffer(_) =>
    case StartGiving =>
    case WakeGiver =>
  }

  /** However both ends are scheduled, after at most `Work(c)` steps without a new request nothing is left to do. */
  lemma {:induction false} RunsEnd(c: Channel, steps: seq<Step>)
    requires Safe(c) && c.watermark > 0 && IsRun(c, steps)
    requires forall i | 0 <= i < |steps| :: !steps[i].Request?
    ensures |steps| <= Work(c)
    decreases |steps|
  {
    if steps != [] {
      StepProgress(c, steps[0]);
      StepSafe(c, steps[0]);
      RunsEnd(Take(c, steps[0]).c, steps[1..]);
    }
  }
}
