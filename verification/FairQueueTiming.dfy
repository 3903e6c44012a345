/** What the circuit breaker, the cooldowns and the depth warning guarantee over whole runs. */
module FairQueueTiming {
  import opened Backoff
  import opened FairQueueSpec
  import opened FairQueueRuns
  import opened Wrappers

  // ----- the circuit breaker

  function FailCount(ops: seq<Op>, mirror: string): nat {
    if ops == [] then 0
    else (if ops[0].Fail? && ops[0].mirror == mirror then 1 else 0) + FailCount(ops[1..], mirror)
  }

  /** How many failures of the run were reported as trips of the breaker. */
  function TripCount(q: Queue, ops: seq<Op>, mirror: string): nat
    decreases |ops|
  {
    if ops == [] then 0
    else (if ops[0].Fail? && ops[0].mirror == mirror && Trips(q, mirror) then 1 else 0)
         + TripCount(Step(q, ops[0]), ops[1..], mirror)
  }

  lemma StepFailures(q: Queue, op: Op, mirror: string)
    requires op != Succeed(mirror)
    ensures Failures(Step(q, op), mirror) == Failures(q, mirror) + FailCount([op], mirror)
    ensures (op.Fail? && op.mirror == mirror) || BackoffUntil(Step(q, op), mirror) == BackoffUntil(q, mirror)
  {
    hide Key, Eligible, FirstEligible, IndexOfKey, BackoffAfter;
    assert [op][1..] == [];
  }

  /** Between two successes a mirror's breaker trips exactly once if there are three failures, and
      otherwise not at all. */
  lemma {:induction false} TripsOnceBetweenSuccesses(q: Queue, ops: seq<Op>, mirror: string)
    requires Succeed(mirror) !in ops
    ensures TripCount(q, ops, mirror)
            == if Failures(q, mirror) < BREAKER_THRESHOLD <= Failures(q, mirror) + FailCount(ops, mirror) then 1 else 0
    decreases |ops|
  {
    if ops != [] {
      StepFailures(q, ops[0], mirror);
      assert [ops[0]][1..] == [];
      hide Step, Failures;
      TripsOnceBetweenSuccesses(Step(q, ops[0]), ops[1..], mirror);
    }
  }

  /** The run releases no sync task of the mirror in a pass whose clock reads less than until. */
  ghost predicate QuietUntil(q: Queue, ops: seq<Op>, mirror: string, until: Time)
    decreases |ops|
  {
    ops == [] ||
    ((forall t :: t in StepLedger(q, ops[0]).handedOut && ops[0].Get? && ops[0].now < until
                  ==> t.mirror != mirror || t.kind == TaskDelete)
     && QuietUntil(Step(q, ops[0]), ops[1..], mirror, until))
  }

  lemma PausedMirrorIsSkipped(q: Queue, now: nat, cancelled: bool, t: Task)
    requires t in StepLedger(q, Get(now, cancelled)).handedOut && now < BackoffUntil(q, t.mirror)
    ensures t.kind == TaskDelete
  {
    hide Key;
  }

  ghost predicate FailuresNotBefore(ops: seq<Op>, mirror: string, start: int) {
    forall op :: op in ops && op.Fail? && op.mirror == mirror ==> op.now >= start
  }

  /** Once a failure has paused a mirror, none of its syncs is released before the pause is over,
      whatever else happens short of a success: later failures can only lengthen the pause, as long as
      there are no more than 32 in a row. */
  lemma {:induction false} BreakerHolds(q: Queue, ops: seq<Op>, mirror: string, start: nat, n: nat)
    requires BREAKER_THRESHOLD <= n <= Failures(q, mirror) && Failures(q, mirror) + FailCount(ops, mirror) <= 32
    requires BackoffUntil(q, mirror) >= start + BackoffAfter(n)
    requires Succeed(mirror) !in ops && FailuresNotBefore(ops, mirror, start)
    ensures QuietUntil(q, ops, mirror, start + BackoffAfter(n))
    decreases |ops|
  {
    hide BackoffAfter;
    if ops != [] {
      StepFailures(q, ops[0], mirror);
      assert [ops[0]][1..] == [];
      if ops[0].Fail? && ops[0].mirror == mirror {
        BackoffWithinWord(n, Failures(q, mirror) + 1);
      }
      forall t | t in StepLedger(q, ops[0]).handedOut && ops[0].Get? && ops[0].now < start + BackoffAfter(n)
        ensures t.mirror != mirror || t.kind == TaskDelete
      {
        if t.mirror == mirror { PausedMirrorIsSkipped(q, ops[0].now, ops[0].cancelled, t); }
      }
      hide StepLedger;
      BreakerHolds(Step(q, ops[0]), ops[1..], mirror, start, n);
    }
  }

  /** The failure that starts it: from the 3rd to the 32nd in a row, the pause is the documented one. */
  lemma FailurePauses(q: Queue, ops: seq<Op>, mirror: string, now: nat)
    requires BREAKER_THRESHOLD <= Failures(q, mirror) + 1
    requires Failures(q, mirror) + 1 + FailCount(ops, mirror) <= 32
    requires Succeed(mirror) !in ops && FailuresNotBefore(ops, mirror, now)
    ensures QuietUntil(RecordFailure(q, mirror, now), ops, mirror, now + IdealBackoff(Failures(q, mirror) + 1))
  {
    var n := Failures(q, mirror) + 1;
    BackoffWithinWord(n, n);
    BreakerHolds(RecordFailure(q, mirror, now), ops, mirror, now, n);
  }

  /** The 33rd failure in a row pauses nothing. */
  lemma Failure33PausesNothing(q: Queue, mirror: string, now: nat)
    requires Failures(q, mirror) == 32
    ensures !MirrorPaused(RecordFailure(q, mirror, now), mirror, now)
  {
    BackoffBreaksAt33();
  }

  /** A success forgets the failures and ends the pause, of this mirror only. */
  lemma SuccessResets(q: Queue, mirror: string, other: string, now: nat)
    requires other != mirror
    ensures var q' := RecordSuccess(q, mirror);
            && Failures(q', mirror) == 0 && !MirrorPaused(q', mirror, now)
            && Failures(q', other) == Failures(q, other) && (MirrorPaused(q', other, now) <==> MirrorPaused(q, other, now))
  {
  }

  /** A closed queue takes nothing more in, but still hands out what it holds: a pass comes back empty
      only when the caller gave up or the queue is empty. */
  lemma {:induction false} ClosedQueueDrains(q: Queue, ops: seq<Op>, now: nat)
    requires q.closed
    ensures Run(q, ops).closed && RunLedger(q, ops).accepted == []
    ensures Pass(Run(q, ops), now, false).Finished? <==> Run(q, ops).items == []
    decreases |ops|
  {
    if ops != [] { ClosedQueueDrains(Step(q, ops[0]), ops[1..], now); }
  }

  // ----- cooldowns

  function ClockOf(op: Op): Option<nat> {
    match op
    case Cool(_, now) => Some(now)
    case CoolAdaptively(_, _, now) => Some(now)
    case Fail(_, now) => Some(now)
    case Get(now, _) => Some(now)
    case _ => None
  }

  /** The clock readings of the run do not decrease, starting from start. */
  ghost predicate ClockRuns(ops: seq<Op>, start: int)
    decreases |ops|
  {
    ops == [] ||
    (var c := ClockOf(ops[0]);
     (c.Some? ==> c.value >= start) && ClockRuns(ops[1..], if c.Some? then c.value else start))
  }

  /** The run hands out no sync of the file in a pass whose clock reads less than until. */
  ghost predicate FileRestsUntil(q: Queue, ops: seq<Op>, key: string, until: Time)
    decreases |ops|
  {
    ops == [] ||
    ((forall t :: t in StepLedger(q, ops[0]).handedOut && ops[0].Get? && ops[0].now < until
                  ==> Key(t) != key || t.kind == TaskDelete)
     && FileRestsUntil(Step(q, ops[0]), ops[1..], key, until))
  }

  ghost predicate OnlyAdaptive(ops: seq<Op>, key: string, until: Time) {
    forall op :: op in ops ==>
      (op.Cool? ==> op.key != key) && (op.CoolAdaptively? && op.key == key ==> until <= op.now + COOLDOWN_BASE)
  }

  lemma StepKeepsCooldown(q: Queue, op: Op, key: string, until: Time)
    requires key != "" && key in q.cooldowns && q.cooldowns[key] >= until
    requires OnlyAdaptive([op], key, until)
    ensures (op.Get? && op.now >= until)
            || (key in Step(q, op).cooldowns && Step(q, op).cooldowns[key] >= until
                && forall t :: t in StepLedger(q, op).handedOut ==> Key(t) != key || t.kind == TaskDelete)
  {
    hide Key, IndexOfKey, After;
    assert op in [op];
    if op.CoolAdaptively? && op.key == key {
      AdaptiveCooldownBounds(q, key, op.syncDuration, op.now);
    }
  }

  /** A cooldown outlasts everything: until it is over no sync of the file is handed out, even if its
      delete is, and even if later syncs set it anew. */
  lemma {:induction false} CooldownHolds(q: Queue, ops: seq<Op>, key: string, start: int, until: Time)
    requires key != "" && ClockRuns(ops, start) && OnlyAdaptive(ops, key, until)
    requires (key in q.cooldowns && q.cooldowns[key] >= until) || start >= until
    ensures FileRestsUntil(q, ops, key, until)
    decreases |ops|
  {
    if ops != [] {
      var c := ClockOf(ops[0]);
      assert OnlyAdaptive([ops[0]], key, until) && OnlyAdaptive(ops[1..], key, until);
      if start < until {
        StepKeepsCooldown(q, ops[0], key, until);
      }
      hide Step, StepLedger, Key, OnlyAdaptive;
      CooldownHolds(Step(q, ops[0]), ops[1..], key, if c.Some? then c.value else start, until);
    }
  }

  lemma {:induction false} ClockAtLeast(ops: seq<Op>, start: int, op: Op)
    requires ClockRuns(ops, start) && op in ops && ClockOf(op).Some?
    ensures ClockOf(op).value >= start
    decreases |ops|
  {
    var c := ClockOf(ops[0]);
    if op != ops[0] { ClockAtLeast(ops[1..], if c.Some? then c.value else start, op); }
  }

  /** After a sync at time now the file rests for at least the base cooldown. */
  lemma SyncedFileRests(q: Queue, ops: seq<Op>, key: string, d: int, now: nat)
    requires key != "" && ClockRuns(ops, now) && (forall op :: op in ops && op.Cool? ==> op.key != key)
    ensures FileRestsUntil(SetAdaptiveCooldown(q, key, d, now), ops, key, now + 5 * SECOND)
  {
    AdaptiveCooldownBounds(q, key, d, now);
    hide FileRestsUntil;
    forall op | op in ops && op.CoolAdaptively? ensures op.now >= now { ClockAtLeast(ops, now, op); }
    CooldownHolds(SetAdaptiveCooldown(q, key, d, now), ops, key, now, now + COOLDOWN_BASE);
  }

  /** A fixed cooldown, if one is configured, is kept in full until a cooldown is set anew. */
  lemma CooledFileRests(q: Queue, ops: seq<Op>, key: string, now: nat)
    requires key != "" && q.cooldownDur > 0 && ClockRuns(ops, now)
    requires forall op :: op in ops && (op.Cool? || op.CoolAdaptively?) ==> op.key != key
    ensures FileRestsUntil(SetCooldown(q, key, now), ops, key, now + q.cooldownDur)
  {
    hide FileRestsUntil, ClockRuns;
    CooldownHolds(SetCooldown(q, key, now), ops, key, now, now + q.cooldownDur);
  }

  // ----- the depth warning

  /** The step adds a task at the back and leaves the queue in the given range of depths. */
  ghost predicate LeavesDepth(q: Queue, op: Op, low: nat, high: nat) {
    op.Put? && Accepts(q, op.task) && low <= |Step(q, op).items| < high
  }

  ghost predicate Ever(q: Queue, ops: seq<Op>, low: nat, high: nat)
    decreases |ops|
  {
    ops != [] && (LeavesDepth(q, ops[0], low, high) || Ever(Step(q, ops[0]), ops[1..], low, high))
  }

  lemma EnqueueSignals(q: Queue, t: Task)
    requires Accepts(q, t) && |Enqueue(q, t).items| >= DRAINED_DEPTH
    ensures var q' := Enqueue(q, t);
            var signals := !q.overflowFired && |q'.items| >= OVERFLOW_DEPTH;
            && |q'.items| <= HARD_CAP
            && q'.overflowSignals == q.overflowSignals + (if signals then 1 else 0)
            && q'.overflowFired == (q.overflowFired || signals)
  {
    hide Key, IndexOfKey;
    var q1 := Deduplicated(q, t);
    assert q1.overflowFired == q.overflowFired && q1.overflowSignals == q.overflowSignals;
    hide Deduplicated;
  }

  lemma StepSignals(q: Queue, op: Op)
    requires !LeavesDepth(q, op, 0, DRAINED_DEPTH)
    ensures var q' := Step(q, op);
            var signals := !q.overflowFired && LeavesDepth(q, op, OVERFLOW_DEPTH, HARD_CAP + 1);
            && q'.overflowSignals == q.overflowSignals + (if signals then 1 else 0)
            && q'.overflowFired == (q.overflowFired || signals)
  {
    hide Key, IndexOfKey, Eligible, FirstEligible, Accepts;
    if op.Put? && Accepts(q, op.task) {
      EnqueueSignals(q, op.task);
      hide Enqueue;
    }
  }

  /** The overflow warning fires exactly once between two drainings: as long as no enqueue leaves the
      queue drained, the first that leaves it overflowing warns, if the last warning has not been reset,
      and no other does. */
  lemma {:induction false} OneWarningUntilDrained(q: Queue, ops: seq<Op>)
    requires !Ever(q, ops, 0, DRAINED_DEPTH)
    ensures Run(q, ops).overflowSignals
            == q.overflowSignals
               + if !q.overflowFired && Ever(q, ops, OVERFLOW_DEPTH, HARD_CAP + 1) then 1 else 0
    decreases |ops|
  {
    if ops != [] {
      StepSignals(q, ops[0]);
      hide Step, LeavesDepth;
      OneWarningUntilDrained(Step(q, ops[0]), ops[1..]);
    }
  }
}
