/** The hand-off of anomalies to the alerting callback (internal/anomaly/anomaly.go:141-305) as a
    protocol: any number of Record and Close calls and one callback loop, interleaved at every step that
    touches shared state. A send on a closed channel and a second close are panics, as in Go. */
module AnomalyRecorder {

  const CHANNEL_CAPACITY: nat := 64

  /** An anomaly is named by its number, and so is the Record call that made it. */
  datatype Message = Anomaly(id: nat) | OverflowNotice

  datatype Fate = Sent | Dropped | FoundClosed

  /** Where a Record call is, from the point where it has decided to hand over its anomaly. */
  datatype RecordPc =
    | Arrived
    | Locked                // holds the read lock
    | Open                  // and has seen that the recorder is not closed
    | Full                  // and has found the channel full
    | Counted               // and has counted the drop
    | Announcing            // and is the one to announce the overflow
    | Leaving(fate: Fate)   // and is about to release the lock
    | Finished(fate: Fate)

  datatype ClosePc =
    | Wanting
    | Holding               // holds the write lock
    | Marked                // has set closed, and is about to close the channel
    | Releasing(first: bool)
    | Waiting               // the first Close waits for the loop to end
    | Returned(first: bool)

  datatype Loop = Receiving | Calling(message: Message) | Ended

  /** sent and delivered record what went into the channel and what the callback was called with. */
  datatype State = State(counter: nat,
                         recorders: map<nat, RecordPc>,
                         closers: map<nat, ClosePc>,
                         loop: Loop,
                         closed: bool,
                         channel: seq<Message>,
                         channelClosed: bool,
                         dropped: nat,
                         announced: bool,
                         panicked: bool,
                         sent: seq<Message>,
                         delivered: seq<Message>)

  function Initial(): State {
    State(0, map[], map[], Receiving, false, [], false, 0, false, false, [], [])
  }

  datatype Action =
    | Record                // a new call, its anomaly numbered and written
    | ReadLock(r: nat)
    | CheckClosed(r: nat)
    | TrySend(r: nat)
    | CountDrop(r: nat)
    | ClaimNotice(r: nat)   // the compare-and-swap
    | TryNotice(r: nat)
    | ReadUnlock(r: nat)
    | Close(c: nat)         // a new call
    | WriteLock(c: nat)
    | Mark(c: nat)
    | CloseChannel(c: nat)
    | WriteUnlock(c: nat)
    | PassWait(c: nat)
    | Receive
    | Callback
    | EndLoop

  predicate HoldsRead(pc: RecordPc) {
    !pc.Arrived? && !pc.Finished?
  }

  predicate HoldsWrite(pc: ClosePc) {
    pc.Holding? || pc.Marked? || pc.Releasing?
  }

  predicate NoReader(s: State) {
    forall r :: r in s.recorders ==> !HoldsRead(s.recorders[r])
  }

  predicate NoWriter(s: State) {
    forall c :: c in s.closers ==> !HoldsWrite(s.closers[c])
  }

  predicate RecorderAt(s: State, r: nat, pc: RecordPc) {
    r in s.recorders && s.recorders[r] == pc
  }

  predicate CloserAt(s: State, c: nat, pc: ClosePc) {
    c in s.closers && s.closers[c] == pc
  }

  predicate Enabled(s: State, a: Action) {
    match a
    case Record => true
    case ReadLock(r) => RecorderAt(s, r, Arrived) && NoWriter(s)
    case CheckClosed(r) => RecorderAt(s, r, Locked)
    case TrySend(r) => RecorderAt(s, r, Open)
    case CountDrop(r) => RecorderAt(s, r, Full)
    case ClaimNotice(r) => RecorderAt(s, r, Counted)
    case TryNotice(r) => RecorderAt(s, r, Announcing)
    case ReadUnlock(r) => r in s.recorders && s.recorders[r].Leaving?
    case Close(c) => c !in s.closers
    case WriteLock(c) => CloserAt(s, c, Wanting) && NoReader(s) && NoWriter(s)
    case Mark(c) => CloserAt(s, c, Holding)
    case CloseChannel(c) => CloserAt(s, c, Marked)
    case WriteUnlock(c) => c in s.closers && s.closers[c].Releasing?
    case PassWait(c) => CloserAt(s, c, Waiting) && s.loop == Ended
    case Receive => s.loop == Receiving && s.channel != []
    case Callback => s.loop.Calling?
    case EndLoop => s.loop == Receiving && s.channel == [] && s.channelClosed
  }

  function At(s: State, r: nat, pc: RecordPc): State {
    s.(recorders := s.recorders[r := pc])
  }

  function CloseAt(s: State, c: nat, pc: ClosePc): State {
    s.(closers := s.closers[c := pc])
  }

  /** A non-blocking send: a panic on a closed channel, nothing on a full one. */
  function Send(s: State, m: Message): State {
    if s.channelClosed then s.(panicked := true)
    else if |s.channel| < CHANNEL_CAPACITY then s.(channel := s.channel + [m], sent := s.sent + [m])
    else s
  }

  function Step(s: State, a: Action): State
    requires Enabled(s, a)
  {
    match a
    case Record => At(s, s.counter + 1, Arrived).(counter := s.counter + 1)
    case ReadLock(r) => At(s, r, Locked)
    case CheckClosed(r) => At(s, r, if s.closed then Leaving(FoundClosed) else Open)
    case TrySend(r) =>
      At(Send(s, Anomaly(r)), r, if |s.channel| < CHANNEL_CAPACITY then Leaving(Sent) else Full)
    case CountDrop(r) => At(s, r, Counted).(dropped := s.dropped + 1)
    case ClaimNotice(r) => At(s, r, if s.announced then Leaving(Dropped) else Announcing).(announced := true)
    case TryNotice(r) => At(Send(s, OverflowNotice), r, Leaving(Dropped))
    case ReadUnlock(r) => At(s, r, Finished(s.recorders[r].fate))
    case Close(c) => CloseAt(s, c, Wanting)
    case WriteLock(c) => CloseAt(s, c, Holding)
    case Mark(c) => CloseAt(s, c, if s.closed then Releasing(false) else Marked).(closed := true)
    case CloseChannel(c) =>
      CloseAt(s, c, Releasing(true)).(channelClosed := true, panicked := s.panicked || s.channelClosed)
    case WriteUnlock(c) => CloseAt(s, c, if s.closers[c].first then Waiting else Returned(false))
    case PassWait(c) => CloseAt(s, c, Returned(true))
    case Receive => s.(loop := Calling(s.channel[0]), channel := s.channel[1..])
    case Callback => s.(loop := Receiving, delivered := s.delivered + [s.loop.message])
    case EndLoop => s.(loop := Ended)
  }

  predicate Possible(s: State, run: seq<Action>)
    decreases |run|
  {
    run == [] || (Enabled(s, run[0]) && Possible(Step(s, run[0]), run[1..]))
  }

  function Run(s: State, run: seq<Action>): State
    requires Possible(s, run)
    decreases |run|
  {
    if run == [] then s else Run(Step(s, run[0]), run[1..])
  }

  // ----- the lock, and no send after the close

  /** The lock excludes, closed and channelClosed change only under it, and a Record call that has seen
      the recorder open still sees it open. */
  ghost predicate LockInv(s: State) {
    && (forall c :: c in s.closers && HoldsWrite(s.closers[c]) ==> NoReader(s))
    && (forall c, d :: c in s.closers && d in s.closers && HoldsWrite(s.closers[c]) && HoldsWrite(s.closers[d]) ==> c == d)
    && (s.channelClosed ==> s.closed)
    && (s.closed && !s.channelClosed <==> exists c :: CloserAt(s, c, Marked))
    && (forall r :: r in s.recorders && s.recorders[r] in {Open, Full, Counted, Announcing} ==> !s.closed)
    && !s.panicked
  }

  lemma RecordersKeepLock(s: State, a: Action)
    requires LockInv(s) && Enabled(s, a) && !a.Close? && !a.WriteLock? && !a.Mark? && !a.CloseChannel? && !a.WriteUnlock? && !a.PassWait?
    ensures LockInv(Step(s, a))
  {
    var s' := Step(s, a);
    assert s'.closers == s.closers;
    assert forall c :: CloserAt(s', c, Marked) <==> CloserAt(s, c, Marked);
  }

  lemma ClosersKeepLock(s: State, a: Action)
    requires LockInv(s) && Enabled(s, a)
    requires a.Close? || a.WriteLock? || a.Mark? || a.CloseChannel? || a.WriteUnlock? || a.PassWait?
    ensures LockInv(Step(s, a))
  {
    var s' := Step(s, a);
    assert s'.recorders == s.recorders;
    assert forall c :: c != a.c ==> (CloserAt(s', c, Marked) <==> CloserAt(s, c, Marked));
    if a.Mark? || a.CloseChannel? { assert CloserAt(s', a.c, s'.closers[a.c]); }
  }

  // ----- delivery

  predicate ByLoop(a: Action) {
    a.Receive? || a.Callback? || a.EndLoop?
  }

  function InFlight(s: State): seq<Message> {
    if s.loop.Calling? then [s.loop.message] else []
  }

  /** The channel is first in, first out, and what is in it is what was sent and not yet taken out. */
  ghost predicate DeliveryInv(s: State) {
    && s.sent == s.delivered + InFlight(s) + s.channel
    && (s.loop == Ended ==> s.channelClosed && s.channel == [])
    && (forall c :: CloserAt(s, c, Returned(true)) ==> s.loop == Ended)
    && |s.channel| <= CHANNEL_CAPACITY
  }

  lemma SendKeepsDelivery(s: State, m: Message, r: nat, pc: RecordPc)
    requires DeliveryInv(s)
    ensures DeliveryInv(At(Send(s, m), r, pc))
  {
    var s' := At(Send(s, m), r, pc);
    assert forall c :: CloserAt(s', c, Returned(true)) <==> CloserAt(s, c, Returned(true));
    assert s'.sent == s'.delivered + InFlight(s') + s'.channel;
  }

  lemma LoopKeepsDelivery(s: State, a: Action)
    requires DeliveryInv(s) && Enabled(s, a) && ByLoop(a)
    ensures DeliveryInv(Step(s, a))
  {
    var s' := Step(s, a);
    assert s'.closers == s.closers;
    assert forall c :: CloserAt(s', c, Returned(true)) <==> CloserAt(s, c, Returned(true));
    if a.Receive? { assert s.channel == [s.channel[0]] + s.channel[1..]; }
    assert s'.sent == s'.delivered + InFlight(s') + s'.channel;
  }

  /** Any other step leaves the messages alone. */
  lemma OtherStepKeepsDelivery(s: State, a: Action)
    requires DeliveryInv(s) && Enabled(s, a) && !ByLoop(a) && !a.TrySend? && !a.TryNotice?
    ensures DeliveryInv(Step(s, a))
  {
    var s' := Step(s, a);
    assert s'.sent == s.sent && s'.delivered == s.delivered && s'.channel == s.channel && s'.loop == s.loop;
    assert s.channelClosed ==> s'.channelClosed;
    assert forall c :: CloserAt(s', c, Returned(true)) ==> a == PassWait(c) || CloserAt(s, c, Returned(true));
    hide Step;
  }

  lemma StepKeepsDelivery(s: State, a: Action)
    requires DeliveryInv(s) && Enabled(s, a)
    ensures DeliveryInv(Step(s, a))
  {
    hide Enabled, Send;
    match a
    case TrySend(r) => SendKeepsDelivery(s, Anomaly(r), r, Step(s, a).recorders[r]);
    case TryNotice(r) => SendKeepsDelivery(s, OverflowNotice, r, Leaving(Dropped));
    case _ => if ByLoop(a) { LoopKeepsDelivery(s, a); } else { OtherStepKeepsDelivery(s, a); }
  }

  // ----- accounting

  datatype Status = Undecided | WasSent | WasDropped | WasRefused

  function StatusOf(pc: RecordPc): Status {
    match pc
    case Counted => WasDropped
    case Announcing => WasDropped
    case Leaving(fate) => StatusOfFate(fate)
    case Finished(fate) => StatusOfFate(fate)
    case _ => Undecided
  }

  function StatusOfFate(fate: Fate): Status {
    match fate case Sent => WasSent case Dropped => WasDropped case FoundClosed => WasRefused
  }

  function Calls(recorders: map<nat, RecordPc>, status: Status): set<nat> {
    set r | r in recorders && StatusOf(recorders[r]) == status
  }

  function One(b: bool): nat { if b then 1 else 0 }

  /** A call moving to pc leaves the calls of its old status and joins those of its new one. */
  lemma CallsAfter(recorders: map<nat, RecordPc>, r: nat, pc: RecordPc, status: Status)
    ensures |Calls(recorders[r := pc], status)|
            == |Calls(recorders, status)| - One(r in Calls(recorders, status)) + One(StatusOf(pc) == status)
    ensures forall q :: q in Calls(recorders[r := pc], status)
                        <==> if q == r then StatusOf(pc) == status else q in Calls(recorders, status)
  {
    hide StatusOf;
    var before, after := Calls(recorders, status), Calls(recorders[r := pc], status);
    assert forall q :: q in after <==> if q == r then StatusOf(pc) == status else q in before;
    hide Calls;
    SizeAfter(before, after, r);
  }

  /** Two sets that differ in one element at most. */
  lemma SizeAfter(before: set<nat>, after: set<nat>, r: nat)
    requires forall q :: q != r ==> (q in before <==> q in after)
    ensures |after| == |before| - One(r in before) + One(r in after)
  {
    var rest := before - {r};
    assert before == if r in before then rest + {r} else rest;
    assert after == if r in after then rest + {r} else rest;
  }

  ghost predicate NoRepeats(ms: seq<Message>) {
    forall i, j :: 0 <= i < j < |ms| ==> ms[i] != ms[j]
  }

  /** Each anomaly of a call that got it into the channel is there once, and so is the notice; drops
      count the calls whose anomaly was dropped. */
  ghost predicate AccountInv(s: State) {
    && NoRepeats(s.sent)
    && (forall r :: Anomaly(r) in s.sent <==> r in Calls(s.recorders, WasSent))
    && (OverflowNotice in s.sent ==> s.announced)
    && (forall r, q :: RecorderAt(s, r, Announcing) && RecorderAt(s, q, Announcing) ==> r == q)
    && (forall r :: RecorderAt(s, r, Announcing) ==> s.announced && OverflowNotice !in s.sent)
    && |s.sent| == |Calls(s.recorders, WasSent)| + (if OverflowNotice in s.sent then 1 else 0)
    && s.dropped == |Calls(s.recorders, WasDropped)|
    && (forall r :: r in s.recorders ==> r <= s.counter)
  }

  /** A call that neither sends nor deals with the notice moves on. */
  lemma MoveKeepsAccount(s: State, r: nat, pc: RecordPc, dropped: nat)
    requires AccountInv(s) && r in s.recorders && s.recorders[r] != Announcing && pc != Announcing
    requires StatusOf(s.recorders[r]) == WasSent <==> StatusOf(pc) == WasSent
    requires dropped == s.dropped - One(StatusOf(s.recorders[r]) == WasDropped) + One(StatusOf(pc) == WasDropped)
    ensures AccountInv(At(s, r, pc).(dropped := dropped))
  {
    hide StatusOf;
    var s' := At(s, r, pc).(dropped := dropped);
    assert s'.recorders == s.recorders[r := pc] && s'.sent == s.sent;
    CallsAfter(s.recorders, r, pc, WasSent);
    CallsAfter(s.recorders, r, pc, WasDropped);
    assert forall q :: RecorderAt(s', q, Announcing) <==> RecorderAt(s, q, Announcing);
    assert forall status :: r in Calls(s.recorders, status) <==> StatusOf(s.recorders[r]) == status;
    hide Calls;
  }

  lemma QuietStepKeepsAccount(s: State, a: Action)
    requires AccountInv(s) && Enabled(s, a)
    requires a.ReadLock? || a.CheckClosed? || a.CountDrop? || a.ReadUnlock?
    ensures AccountInv(Step(s, a))
  {
    hide AccountInv, Calls;
    MoveKeepsAccount(s, a.r, Step(s, a).recorders[a.r], Step(s, a).dropped);
  }

  lemma ClaimKeepsAccount(s: State, r: nat)
    requires AccountInv(s) && Enabled(s, ClaimNotice(r))
    ensures AccountInv(Step(s, ClaimNotice(r)))
  {
    var s' := Step(s, ClaimNotice(r));
    CallsAfter(s.recorders, r, s'.recorders[r], WasSent);
    CallsAfter(s.recorders, r, s'.recorders[r], WasDropped);
    hide Calls;
    assert forall q :: RecorderAt(s', q, Announcing)
                       <==> RecorderAt(s, q, Announcing) || (q == r && !s.announced);
  }

  lemma SendKeepsAccount(s: State, r: nat)
    requires AccountInv(s) && LockInv(s) && Enabled(s, TrySend(r))
    ensures AccountInv(Step(s, TrySend(r)))
  {
    var s' := Step(s, TrySend(r));
    CallsAfter(s.recorders, r, s'.recorders[r], WasSent);
    CallsAfter(s.recorders, r, s'.recorders[r], WasDropped);
    assert r !in Calls(s.recorders, WasSent);
    hide Calls, LockInv;
    assert forall q :: RecorderAt(s', q, Announcing) <==> RecorderAt(s, q, Announcing);
    if |s.channel| < CHANNEL_CAPACITY {
      assert s'.sent == s.sent + [Anomaly(r)];
      assert forall m :: m in s'.sent <==> m in s.sent || m == Anomaly(r);
    }
  }

  lemma NoticeKeepsAccount(s: State, r: nat)
    requires AccountInv(s) && LockInv(s) && Enabled(s, TryNotice(r))
    ensures AccountInv(Step(s, TryNotice(r)))
  {
    var s' := Step(s, TryNotice(r));
    CallsAfter(s.recorders, r, s'.recorders[r], WasSent);
    CallsAfter(s.recorders, r, s'.recorders[r], WasDropped);
    assert r in Calls(s.recorders, WasDropped) && r !in Calls(s.recorders, WasSent);
    hide Calls, LockInv;
    assert forall q :: RecorderAt(s', q, Announcing) ==> RecorderAt(s, q, Announcing) && q != r;
    if |s.channel| < CHANNEL_CAPACITY {
      assert s'.sent == s.sent + [OverflowNotice];
      assert forall m :: m in s'.sent <==> m in s.sent || m == OverflowNotice;
    }
  }

  lemma NewCallKeepsAccount(s: State)
    requires AccountInv(s)
    ensures AccountInv(Step(s, Record))
  {
    var s', r := Step(s, Record), s.counter + 1;
    CallsAfter(s.recorders, r, Arrived, WasSent);
    CallsAfter(s.recorders, r, Arrived, WasDropped);
    assert r !in s.recorders;
    assert r !in Calls(s.recorders, WasSent) && r !in Calls(s.recorders, WasDropped);
    hide Calls;
    assert forall q :: RecorderAt(s', q, Announcing) <==> RecorderAt(s, q, Announcing);
  }

  lemma OtherStepKeepsAccount(s: State, a: Action)
    requires AccountInv(s) && Enabled(s, a)
    requires a.Close? || a.WriteLock? || a.Mark? || a.CloseChannel? || a.WriteUnlock? || a.PassWait?
             || a.Receive? || a.Callback? || a.EndLoop?
    ensures AccountInv(Step(s, a))
  {
    var s' := Step(s, a);
    assert s'.recorders == s.recorders && s'.sent == s.sent;
    assert forall q :: RecorderAt(s', q, Announcing) <==> RecorderAt(s, q, Announcing);
  }

  ghost predicate Inv(s: State) {
    LockInv(s) && DeliveryInv(s) && AccountInv(s)
  }

  lemma StepKeepsInv(s: State, a: Action)
    requires Inv(s) && Enabled(s, a)
    ensures Inv(Step(s, a))
  {
    StepKeepsDelivery(s, a);
    if a.Close? || a.WriteLock? || a.Mark? || a.CloseChannel? || a.WriteUnlock? || a.PassWait? {
      ClosersKeepLock(s, a);
    } else {
      RecordersKeepLock(s, a);
    }
    hide LockInv, DeliveryInv, AccountInv, Step, Enabled;
    match a
    case Record => NewCallKeepsAccount(s);
    case ReadLock(_) => QuietStepKeepsAccount(s, a);
    case CheckClosed(_) => QuietStepKeepsAccount(s, a);
    case TrySend(r) => SendKeepsAccount(s, r);
    case CountDrop(_) => QuietStepKeepsAccount(s, a);
    case ClaimNotice(r) => ClaimKeepsAccount(s, r);
    case TryNotice(r) => NoticeKeepsAccount(s, r);
    case ReadUnlock(_) => QuietStepKeepsAccount(s, a);
    case _ => OtherStepKeepsAccount(s, a);
  }

  lemma {:induction false} RunKeepsInv(s: State, run: seq<Action>)
    requires Inv(s) && Possible(s, run)
    ensures Inv(Run(s, run))
    decreases |run|
  {
    hide Enabled, Step, Inv;
    if run != [] {
      StepKeepsInv(s, run[0]);
      RunKeepsInv(Step(s, run[0]), run[1..]);
    }
  }

  lemma InitialInv()
    ensures Inv(Initial())
  {
    assert Calls(map[], WasSent) == {} && Calls(map[], WasDropped) == {};
  }

  // ----- the guarantees, in every reachable state

  ghost predicate Reachable(s: State) {
    exists run :: Possible(Initial(), run) && Run(Initial(), run) == s
  }

  lemma ReachableInv(s: State)
    requires Reachable(s)
    ensures Inv(s)
  {
    var run :| Possible(Initial(), run) && Run(Initial(), run) == s;
    InitialInv();
    RunKeepsInv(Initial(), run);
  }

  /** No interleaving sends on the closed channel or closes it twice. */
  lemma NeverPanics(s: State)
    requires Reachable(s)
    ensures !s.panicked
  {
    ReachableInv(s);
  }

  /** The callback sees what was sent, in the order in which it was sent and each message once. */
  lemma DeliveredOnceInOrder(s: State)
    requires Reachable(s)
    ensures s.delivered <= s.sent && NoRepeats(s.delivered)
  {
    ReachableInv(s);
  }

  /** After the first Close has returned, everything that was sent has been delivered, and nothing is
      sent or delivered any more, whatever Record calls still come. */
  lemma {:induction false} DrainedWhenCloseReturns(s: State, c: nat, run: seq<Action>)
    requires Inv(s) && CloserAt(s, c, Returned(true)) && Possible(s, run)
    ensures s.delivered == s.sent
    ensures Run(s, run).sent == s.sent && Run(s, run).delivered == s.delivered
    decreases |run|
  {
    assert s.loop == Ended && s.channel == [];
    assert s.sent == s.delivered + [] + [] == s.delivered;
    if run != [] {
      StepKeepsInv(s, run[0]);
      EndedStaysQuiet(s, c, run[0]);
      DrainedWhenCloseReturns(Step(s, run[0]), c, run[1..]);
    }
  }

  lemma EndedStaysQuiet(s: State, c: nat, a: Action)
    requires Inv(s) && CloserAt(s, c, Returned(true)) && Enabled(s, a)
    ensures CloserAt(Step(s, a), c, Returned(true))
    ensures Step(s, a).sent == s.sent && Step(s, a).delivered == s.delivered
  {
    assert s.loop == Ended;
  }

  /** Every call that wanted to hand over its anomaly is still at it, or got it into the channel, or is
      counted as dropped, or found the recorder closed; what is in the channel beyond that is at most
      one overflow notice. */
  lemma CallsAccounted(s: State)
    requires Reachable(s)
    ensures |s.recorders.Keys| == |Calls(s.recorders, Undecided)| + (|s.sent| - One(OverflowNotice in s.sent))
                                  + s.dropped + |Calls(s.recorders, WasRefused)|
    ensures forall r :: Anomaly(r) in s.sent <==> r in Calls(s.recorders, WasSent)
  {
    ReachableInv(s);
    PartitionOfCalls(s.recorders);
  }

  lemma PartitionOfCalls(recorders: map<nat, RecordPc>)
    ensures |recorders.Keys| == |Calls(recorders, Undecided)| + |Calls(recorders, WasSent)|
                                + |Calls(recorders, WasDropped)| + |Calls(recorders, WasRefused)|
  {
    hide StatusOf;
    var a, b := Calls(recorders, Undecided), Calls(recorders, WasSent);
    var c, d := Calls(recorders, WasDropped), Calls(recorders, WasRefused);
    forall r | r in recorders ensures r in a + b + c + d {
      var status := StatusOf(recorders[r]);
      assert status == Undecided || status == WasSent || status == WasDropped || status == WasRefused;
    }
    assert recorders.Keys == a + b + c + d;
    assert a !! b && (a + b) !! c && (a + b + c) !! d;
  }

  // ----- Close does not wait for ever

  function LoopWork(s: State): nat {
    2 * |s.channel| + (match s.loop case Receiving => 1 case Calling(_) => 2 case Ended => 0)
  }

  function LoopSteps(run: seq<Action>): nat {
    if run == [] then 0 else (if ByLoop(run[0]) then 1 else 0) + LoopSteps(run[1..])
  }

  /** Once the channel is closed the loop can always go on until it ends. */
  lemma LoopNeverStuck(s: State)
    requires s.channelClosed && s.loop != Ended
    ensures exists a :: ByLoop(a) && Enabled(s, a)
  {
    if s.loop.Calling? {
      assert Enabled(s, Callback);
    } else if s.channel != [] {
      assert Enabled(s, Receive);
    } else {
      assert Enabled(s, EndLoop);
    }
  }

  /** And it ends: no other step gives it more work, so after as many of its own steps as there is work
      the first Close can return. */
  lemma {:induction false} LoopEnds(s: State, run: seq<Action>)
    requires Inv(s) && s.channelClosed && Possible(s, run)
    ensures Run(s, run).channelClosed && LoopWork(Run(s, run)) + LoopSteps(run) == LoopWork(s)
    decreases |run|
  {
    if run != [] {
      StepKeepsInv(s, run[0]);
      LoopWorkStep(s, run[0]);
      hide Step, Enabled, Inv, LoopWork;
      LoopEnds(Step(s, run[0]), run[1..]);
    }
  }

  lemma LoopWorkStep(s: State, a: Action)
    requires Inv(s) && s.channelClosed && Enabled(s, a)
    ensures Step(s, a).channelClosed
    ensures LoopWork(Step(s, a)) + (if ByLoop(a) then 1 else 0) == LoopWork(s)
  {
  }
}
