/** Credit cells of a logical channel: bounds, the cell a client spends from, and the cell a
    server collects in until there is enough to give. An absent value in a `notify` field means
    that nobody was notified since the last notification was taken. */
module Guarantees {
  import opened Wrappers
  import opened ByteStrings

  type U64 = n: nat | n < U64_LIMIT

  const U64_MAX: U64 := U64_LIMIT - 1

  // ---------------------------------------------------------------- bounds

  function Bounded(old_: Option<U64>, bound: U64): (Option<U64>, Result<(), U64>) {
    if old_.Some? && bound > old_.value then (old_, Err(old_.value)) else (Some(bound), Ok(()))
  }

  function Spent(old_: Option<U64>, amount: U64): (Option<U64>, Result<Option<U64>, ()>) {
    match old_
    case None => (None, Ok(None))
    case Some(b) => if amount <= b then (Some(b - amount), Ok(Some(b - amount))) else (old_, Err(()))
  }

  class GuaranteeBoundCell {
    var bound: Option<U64>

    constructor ()
      ensures bound.None?
    {
      bound := None;
    }

    method ApplyBound(newBound: U64) returns (r: Result<(), U64>)
      modifies this
      ensures (bound, r) == Bounded(old(bound), newBound)
      ensures r.Ok? <==> old(bound).None? || newBound <= old(bound).value
      ensures bound == (if r.Ok? then Some(newBound) else old(bound)) && (r.Err? ==> Some(r.error) == old(bound))
    {
      match bound
      case None =>
        bound := Some(newBound);
        r := Ok(());
      case Some(oldBound) =>
        if newBound <= oldBound {
          bound := Some(newBound);
          r := Ok(());
        } else {
          r := Err(oldBound);
        }
    }

    method UseUp(guarantees: U64) returns (r: Result<Option<U64>, ()>)
      modifies this
      ensures (bound, r) == Spent(old(bound), guarantees)
      ensures r.Err? <==> old(bound).Some? && guarantees > old(bound).value
      ensures if old(bound).Some? && r.Ok? then bound == r.value == Some(old(bound).value - guarantees) else bound == old(bound)
    {
      match bound
      case None => r := Ok(None);
      case Some(oldBound) =>
        if oldBound < guarantees { return Err(()); }
        bound := Some(oldBound - guarantees);
        r := Ok(bound);
    }
  }

  // ---------------------------------------------------------------- the client's cell

  datatype ThresholdOutcome = YayReached | NopeBound

  datatype ClientCell = ClientCell(acc: U64, threshold: Option<U64>, notify: Option<ThresholdOutcome>, bound: Option<U64>)

  const NEW_CLIENT_CELL: ClientCell := ClientCell(0, None, None, None)

  function SaturatingAdd(a: U64, b: U64): U64 {
    if a + b <= U64_MAX then a + b else U64_MAX
  }

  function NotifyClient(c: ClientCell): ClientCell {
    if c.threshold.None? then c
    else if c.acc >= c.threshold.value then c.(notify := Some(YayReached), threshold := None)
    else if c.bound.Some? && c.threshold.value > SaturatingAdd(c.acc, c.bound.value) then
      c.(notify := Some(NopeBound), threshold := None)
    else c
  }

  function LimitClient(c: ClientCell, bound: U64): (ClientCell, Result<(), U64>) {
    var (b, r) := Bounded(c.bound, bound);
    if r.Err? then (c, r) else (NotifyClient(c.(bound := b)), r)
  }

  /** A violated bound leaves the increased credit behind. */
  function GrantClient(c: ClientCell, amount: U64): (ClientCell, Result<(), ()>) {
    if c.acc + amount > U64_MAX then (c, Err(()))
    else
      var (b, r) := Spent(c.bound, amount);
      if r.Err? then (c.(acc := c.acc + amount), Err(()))
      else (NotifyClient(c.(acc := c.acc + amount, bound := b)), Ok(()))
  }

  function BeginAwait(c: ClientCell, threshold: U64): ClientCell {
    NotifyClient(c.(threshold := Some(threshold)))
  }

  /** Taking the notification spends the credit that was waited for. */
  function FinishAwait(c: ClientCell, threshold: U64): (ClientCell, ThresholdOutcome)
    requires c.notify.Some? && (c.notify.value.YayReached? ==> threshold <= c.acc)
  {
    match c.notify.value
    case YayReached => (c.(notify := None, acc := c.acc - threshold), YayReached)
    case NopeBound => (c.(notify := None), NopeBound)
  }

  /** The value is set to the target even if it was smaller. */
  function ReduceDownTo(c: ClientCell, target: U64): (ClientCell, U64) {
    (c.(acc := target), if c.acc > target then c.acc - target else 0)
  }

  /** Bounds only tighten: a greater one is refused, and nothing changes. */
  lemma LimitMeaning(c: ClientCell, bound: U64)
    ensures var (c', r) := LimitClient(c, bound);
      && (r.Ok? <==> c.bound.None? || bound <= c.bound.value)
      && (r.Ok? ==> c'.bound == Some(bound) && c'.acc == c.acc)
      && (r.Err? ==> c' == c && c.bound == Some(r.error))
  {}

  /** Credit is refused where it overflows, or exceeds the bound. In the second case it is there all the
      same, and then credit and bound together are more than they were before. */
  lemma GrantMeaning(c: ClientCell, amount: U64)
    ensures var (c', r) := GrantClient(c, amount);
      var overflows := c.acc + amount >= U64_LIMIT;
      var exceeds := c.bound.Some? && c.bound.value < amount;
      && (r.Err? <==> overflows || exceeds)
      && c'.acc == (if overflows then c.acc else c.acc + amount)
      && (r.Ok? ==> c'.bound == if c.bound.Some? then Some(c.bound.value - amount) else None)
      && (r.Err? ==> c'.bound == c.bound && c'.threshold == c.threshold && c'.notify == c.notify)
      && (exceeds && !overflows ==> c'.acc + c'.bound.value == c.acc + c.bound.value + amount)
  {}

  /** Reducing does what it is documented to do, nothing for large targets, if and only if the target is not greater. */
  lemma ReduceMeaning(c: ClientCell, target: U64)
    ensures var (c', removed) := ReduceDownTo(c, target);
      c'.acc + removed == c.acc <==> target <= c.acc
  {}

  class GuaranteeCell {
    var acc: U64
    var threshold: Option<U64>
    var notify: Option<ThresholdOutcome>
    const bound: GuaranteeBoundCell

    ghost function State(): ClientCell
      reads this, bound
    {
      ClientCell(acc, threshold, notify, bound.bound)
    }

    constructor ()
      ensures State() == NEW_CLIENT_CELL && fresh(bound)
    {
      acc, threshold, notify := 0, None, None;
      bound := new GuaranteeBoundCell();
    }

    method ApplyBound(newBound: U64) returns (r: Result<(), U64>)
      modifies this, bound
      ensures (State(), r) == LimitClient(old(State()), newBound)
    {
      r := bound.ApplyBound(newBound);
      if r.Err? { return; }
      NotifyThreshold();
    }

    method AddGuarantees(amount: U64) returns (r: Result<(), ()>)
      modifies this, bound
      ensures (State(), r) == GrantClient(old(State()), amount)
    {
      if acc + amount > U64_MAX { return Err(()); }
      acc := acc + amount;
      var used := bound.UseUp(amount);
      if used.Err? { return Err(()); }
      NotifyThreshold();
      return Ok(());
    }

    method ReduceGuaranteesDownTo(target: U64) returns (diff: U64)
      modifies this`acc
      ensures (State(), diff) == ReduceDownTo(old(State()), target)
    {
      diff := if acc > target then acc - target else 0;
      acc := target;
    }

    /** The first half of waiting for a threshold, up to the point where the waiter parks. */
    method BeginAwaitThreshold(t: U64)
      modifies this
      ensures State() == BeginAwait(old(State()), t)
    {
      threshold := Some(t);
      NotifyThreshold();
    }

    /** The second half, once there is a notification to take. */
    method FinishAwaitThreshold(t: U64) returns (r: ThresholdOutcome)
      requires notify.Some? && (notify.value.YayReached? ==> t <= acc)
      modifies this
      ensures (State(), r) == FinishAwait(old(State()), t)
    {
      r := notify.value;
      notify := None;
      if r.YayReached? { acc := acc - t; }
    }

    method NotifyThreshold()
      modifies this`notify, this`threshold
      ensures State() == NotifyClient(old(State()))
    {
      if threshold.Some? {
        if acc >= threshold.value {
          notify := Some(YayReached);
          threshold := None;
        } else if bound.bound.Some? && threshold.value > SaturatingAdd(acc, bound.bound.value) {
          notify := Some(NopeBound);
          threshold := None;
        }
      }
    }
  }

  // ---------------------------------------------------------------- what waiting means

  /** What the peer may do while someone waits. */
  datatype PeerCall = Grant(amount: U64) | Limit(bound: U64)

  function Peer(c: ClientCell, call: PeerCall): (ClientCell, bool) {
    match call
    case Grant(n) => (GrantClient(c, n).0, GrantClient(c, n).1.Ok?)
    case Limit(b) => (LimitClient(c, b).0, LimitClient(c, b).1.Ok?)
  }

  /** Every call of a sequence is accepted. */
  predicate Accepted(c: ClientCell, calls: seq<PeerCall>)
    decreases |calls|
  {
    calls == [] || (Peer(c, calls[0]).1 && Accepted(Peer(c, calls[0]).0, calls[1..]))
  }

  function AfterCalls(c: ClientCell, calls: seq<PeerCall>): ClientCell
    decreases |calls|
  {
    if calls == [] then c else AfterCalls(Peer(c, calls[0]).0, calls[1..])
  }

  /** Someone waits for `t`: parked while the credit is too small but may still suffice, or
      notified of the credit, or of the certainty that it will never suffice. */
  predicate WaitsFor(c: ClientCell, t: U64) {
    match c.notify
    case None => c.threshold == Some(t) && c.acc < t && (c.bound.Some? ==> t <= c.acc + c.bound.value)
    case Some(YayReached) => c.threshold.None? && t <= c.acc
    case Some(NopeBound) => c.threshold.None? && c.bound.Some? && c.acc + c.bound.value < t
  }

  predicate NobodyWaits(c: ClientCell) {
    c.threshold.None? && c.notify.None?
  }

  lemma WaitBegins(c: ClientCell, t: U64)
    requires NobodyWaits(c)
    ensures WaitsFor(BeginAwait(c, t), t)
  {}

  /** What a waiter knows stays true whatever the peer does, as long as it is accepted. */
  lemma WaitContinues(c: ClientCell, t: U64, call: PeerCall)
    requires WaitsFor(c, t) && Peer(c, call).1
    ensures WaitsFor(Peer(c, call).0, t)
    ensures c.notify.Some? ==> Peer(c, call).0.notify == c.notify
  {}

  lemma WaitEnds(c: ClientCell, t: U64)
    requires WaitsFor(c, t) && c.notify.Some?
    ensures c.notify.value.YayReached? ==> t <= c.acc
    ensures NobodyWaits(FinishAwait(c, t).0)
  {}

  /** Credit and bound together never grow. */
  lemma {:induction false} PotentialShrinks(c: ClientCell, calls: seq<PeerCall>)
    requires c.bound.Some? && Accepted(c, calls)
    ensures var c' := AfterCalls(c, calls);
      c'.bound.Some? && c.acc <= c'.acc && c'.acc + c'.bound.value <= c.acc + c.bound.value
    decreases |calls|
  {
    if calls != [] { PotentialShrinks(Peer(c, calls[0]).0, calls[1..]); }
  }

  lemma {:induction false} WaitSurvives(c: ClientCell, t: U64, calls: seq<PeerCall>)
    requires WaitsFor(c, t) && Accepted(c, calls)
    ensures WaitsFor(AfterCalls(c, calls), t)
    ensures c.notify.Some? ==> AfterCalls(c, calls).notify == c.notify
    decreases |calls|
  {
    if calls != [] {
      WaitContinues(c, t, calls[0]);
      WaitSurvives(Peer(c, calls[0]).0, t, calls[1..]);
    }
  }

  /** A waiter is told that its threshold is out of reach if and only if it is: no accepted sequence
      of grants and bounds ever brings the credit up to it. */
  lemma NopeIff(c: ClientCell, t: U64)
    requires WaitsFor(c, t)
    ensures c.notify == Some(NopeBound) <==>
      forall calls | Accepted(c, calls) :: AfterCalls(c, calls).acc < t
  {
    if c.notify == Some(NopeBound) {
      forall calls | Accepted(c, calls) ensures AfterCalls(c, calls).acc < t { PotentialShrinks(c, calls); }
    } else {
      var missing: U64 := if t > c.acc then t - c.acc else 0;
      var calls := [Grant(missing)];
      assert calls[1..] == [];
      assert Accepted(Peer(c, calls[0]).0, calls[1..]);
      assert Accepted(c, calls);
      assert AfterCalls(Peer(c, calls[0]).0, calls[1..]) == Peer(c, calls[0]).0;
      assert AfterCalls(c, calls).acc >= t;
    }
  }

  /** A parked waiter is notified by exactly the accepted calls that settle the matter. */
  lemma ParkedUntilSettled(c: ClientCell, t: U64, call: PeerCall)
    requires WaitsFor(c, t) && c.notify.None? && Peer(c, call).1
    ensures var c' := Peer(c, call).0;
      && (c'.notify == Some(YayReached) <==> t <= c'.acc)
      && (c'.notify == Some(NopeBound) <==> c'.bound.Some? && c'.acc + c'.bound.value < t)
  {}

  // ---------------------------------------------------------------- the server's cell

  datatype Notice = Ready | Final | Error

  datatype ServerCell = ServerCell(acc: U64, threshold: Option<U64>, notify: Option<Notice>, cleared: bool)

  function NotifyServer(c: ServerCell, force: bool): ServerCell {
    if c.threshold.None? || c.notify == Some(Final) || c.notify == Some(Error) then c
    else if c.acc >= c.threshold.value || force then c.(notify := Some(Ready), threshold := None)
    else c
  }

  function AddToGive(c: ServerCell, amount: U64): (ServerCell, Result<(), ()>) {
    if c.acc + amount > U64_MAX then (c, Err(()))
    else (NotifyServer(c.(acc := c.acc + amount), false), Ok(()))
  }

  function BeginGive(c: ServerCell, watermark: U64): ServerCell {
    NotifyServer(c.(threshold := Some(watermark)), false)
  }

  datatype Given = Amount(amount: U64) | NoMore | Broken

  function FinishGive(c: ServerCell): (ServerCell, Given)
    requires c.notify.Some?
  {
    match c.notify.value
    case Ready => (c.(notify := None, acc := 0, cleared := true), Amount(c.acc))
    case Final => (c.(notify := None), NoMore)
    case Error => (c.(notify := None), Broken)
  }

  function ForceGive(c: ServerCell): ServerCell {
    NotifyServer(c, true).(cleared := false)
  }

  class GuaranteeCellWithoutBound {
    var acc: U64
    var threshold: Option<U64>
    var notify: Option<Notice>
    var cleared: bool

    ghost function State(): ServerCell
      reads this
    {
      ServerCell(acc, threshold, notify, cleared)
    }

    constructor ()
      ensures State() == ServerCell(0, None, None, false)
    {
      acc, threshold, notify, cleared := 0, None, None, false;
    }

    method AddGuarantees(amount: U64) returns (r: Result<(), ()>)
      modifies this
      ensures (State(), r) == AddToGive(old(State()), amount)
    {
      if acc + amount > U64_MAX { return Err(()); }
      acc := acc + amount;
      NotifyThreshold(false);
      return Ok(());
    }

    method BeginAwaitThreshold(t: U64)
      modifies this
      ensures State() == BeginGive(old(State()), t)
    {
      threshold := Some(t);
      NotifyThreshold(false);
    }

    method FinishAwaitThreshold() returns (r: Given)
      requires notify.Some?
      modifies this
      ensures (State(), r) == FinishGive(old(State()))
    {
      var notification := notify.value;
      notify := None;
      match notification
      case Ready =>
        r := Amount(acc);
        acc := 0;
        cleared := true;
      case Final => r := NoMore;
      case Error => r := Broken;
    }

    method MustClear()
      modifies this
      ensures State() == ForceGive(old(State()))
    {
      NotifyThreshold(true);
      cleared := false;
    }

    method SetFinal()
      modifies this`notify
      ensures State() == old(State()).(notify := Some(Final))
    {
      notify := Some(Final);
    }

    method SetError()
      modifies this`notify
      ensures State() == old(State()).(notify := Some(Error))
    {
      notify := Some(Error);
    }

    method NotifyThreshold(force: bool)
      modifies this`notify, this`threshold
      ensures State() == NotifyServer(old(State()), force)
    {
      if threshold.Some? {
        match notify {
          case Some(Final) =>
          case Some(Error) =>
          case _ =>
            if acc >= threshold.value || force {
              notify := Some(Ready);
              threshold := None;
            }
        }
      }
    }
  }

  /** Whoever gives credit waits for `watermark`: parked while there is too little. */
  predicate GiverWaits(c: ServerCell, watermark: U64) {
    match c.notify
    case None => c.threshold == Some(watermark) && c.acc < watermark
    case Some(Ready) => c.threshold.None? && watermark <= c.acc
    case Some(_) => false
  }

  predicate NoGiver(c: ServerCell) {
    c.threshold.None? && c.notify.None?
  }

  lemma GiverKeepsWaiting(c: ServerCell, watermark: U64, amount: U64)
    requires GiverWaits(c, watermark) && c.acc + amount <= U64_MAX
    ensures GiverWaits(AddToGive(c, amount).0, watermark) && AddToGive(c, amount).1.Ok?
  {}

  /** Whoever waits for enough to give is notified when there is enough, or when forced, unless it was told
      before that there is nothing more to give: that is never overwritten. */
  lemma GiverNotified(c: ServerCell, amount: U64, watermark: U64)
    ensures var told, added := c.notify == Some(Final) || c.notify == Some(Error), AddToGive(c, amount);
      var enough := c.threshold.Some? && c.acc + amount >= c.threshold.value;
      && (added.1.Ok? <==> c.acc + amount < U64_LIMIT)
      && (added.1.Ok? ==> added.0.acc == c.acc + amount)
      && (added.1.Ok? ==> added.0.notify == if enough && !told then Some(Ready) else c.notify)
      && (added.1.Err? ==> added.0 == c)
      && BeginGive(c, watermark).notify == (if c.acc >= watermark && !told then Some(Ready) else c.notify)
      && ForceGive(c).notify == (if c.threshold.Some? && !told then Some(Ready) else c.notify)
  {}

  /** What has to be given at once is marked as not cleared, and cleared by nothing but giving all of it. */
  lemma ClearedByGiving(c: ServerCell, amount: U64, watermark: U64)
    ensures !ForceGive(c).cleared && ForceGive(c).acc == c.acc
    ensures AddToGive(c, amount).0.cleared == c.cleared && BeginGive(c, watermark).cleared == c.cleared
    ensures c.notify.Some? ==>
      var (c', given) := FinishGive(c);
      if c.notify == Some(Ready) then c'.cleared && c'.acc == 0 && given == Amount(c.acc) else c'.cleared == c.cleared && c'.acc == c.acc
  {}
}
