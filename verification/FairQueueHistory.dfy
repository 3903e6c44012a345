/** What the task queue decides, told by the history of calls alone: which mirrors are paused, which files
    cool down, which tasks are ready, what a pass comes back with, and when the depth warning fires. */
module FairQueueHistory {
  import opened Backoff
  import opened FairQueueRuns
  import opened FairQueueSpec
  import opened FairQueueTiming
  import opened Wrappers

  lemma RunOneMore(q: Queue, ops: seq<Op>)
    requires ops != []
    ensures Run(q, ops) == Step(Run(q, ops[..|ops| - 1]), ops[|ops| - 1])
  {
    hide Step;
    var last := [ops[|ops| - 1]];
    assert ops == ops[..|ops| - 1] + last && last[1..] == [];
    RunConcat(q, ops[..|ops| - 1], last);
    assert Run(Run(q, ops[..|ops| - 1]), last) == Run(Step(Run(q, ops[..|ops| - 1]), last[0]), []);
  }

  // ----- closing, and when a pass comes back with nothing

  lemma {:induction false} ClosedIff(q: Queue, ops: seq<Op>)
    ensures Run(q, ops).closed <==> q.closed || Shut in ops
    decreases |ops|
  {
    if ops != [] {
      ClosedStep(q, ops[0]);
      hide Step;
      ClosedIff(Step(q, ops[0]), ops[1..]);
      assert ops == [ops[0]] + ops[1..];
    }
  }

  lemma ClosedStep(q: Queue, op: Op)
    ensures Step(q, op).closed <==> q.closed || op == Shut
  {
    hide Key, Eligible, IndexOfKey, FirstEligible, CooldownFor, After, BackoffAfter;
  }

  /** Everything that came in has gone out. */
  ghost predicate AllOut(cooldownDur: int, ops: seq<Op>) {
    var l := RunLedger(Empty(cooldownDur), ops);
    multiset(l.accepted) == multiset(l.handedOut) + multiset(l.displaced)
  }

  lemma AllOutIff(cooldownDur: int, ops: seq<Op>)
    ensures AllOut(cooldownDur, ops) <==> Run(Empty(cooldownDur), ops).items == []
  {
    ConservationFromEmpty(cooldownDur, ops);
    var l, items := RunLedger(Empty(cooldownDur), ops), Run(Empty(cooldownDur), ops).items;
    hide Run, RunLedger;
    if items != [] {
      assert items[0] in items;
      assert multiset(l.accepted)[items[0]] > multiset(l.handedOut)[items[0]] + multiset(l.displaced)[items[0]];
    }
  }

  /** In any run, a pass comes back finished exactly when its caller has given up, or the queue was closed
      and everything that came in has gone out; it waits for a signal exactly when, not closed, everything
      has gone out; and it waits for a time, or hands out a task, exactly when something is left. */
  lemma PassEndsIff(cooldownDur: int, ops: seq<Op>, now: nat, cancelled: bool)
    ensures var r := Pass(Run(Empty(cooldownDur), ops), now, cancelled);
            && (r.Finished? <==> cancelled || (Shut in ops && AllOut(cooldownDur, ops)))
            && (r.WaitForSignal? <==> !cancelled && Shut !in ops && AllOut(cooldownDur, ops))
            && (r.WaitUntil? || r.Taken? <==> !cancelled && !AllOut(cooldownDur, ops))
  {
    AllOutIff(cooldownDur, ops);
    ClosedIff(Empty(cooldownDur), ops);
    hide Run, AllOut, Eligible;
  }

  // ----- the circuit breaker

  /** The mirror's failures since its last success. */
  function FailuresInRow(ops: seq<Op>, mirror: string): nat {
    if ops == [] then 0
    else
      var op := ops[|ops| - 1];
      if op == Succeed(mirror) then 0
      else FailuresInRow(ops[..|ops| - 1], mirror) + if op.Fail? && op.mirror == mirror then 1 else 0
  }

  /** When the mirror last failed. */
  function LastFailure(ops: seq<Op>, mirror: string): nat {
    if ops == [] then 0
    else
      var op := ops[|ops| - 1];
      if op.Fail? && op.mirror == mirror then op.now else LastFailure(ops[..|ops| - 1], mirror)
  }

  /** The pause that the history of failures and successes has set. */
  predicate PausedByHistory(ops: seq<Op>, mirror: string, t: Time) {
    var n := FailuresInRow(ops, mirror);
    n >= 3 && t < LastFailure(ops, mirror) + BackoffAfter(n)
  }

  lemma {:induction false} CircuitByHistory(cooldownDur: int, ops: seq<Op>, mirror: string)
    ensures var q, n := Run(Empty(cooldownDur), ops), FailuresInRow(ops, mirror);
            && Failures(q, mirror) == n
            && BackoffUntil(q, mirror)
               == if n >= 3 then LastFailure(ops, mirror) + BackoffAfter(n) else 0
    decreases |ops|
  {
    if ops != [] {
      var prefix, op := ops[..|ops| - 1], ops[|ops| - 1];
      CircuitByHistory(cooldownDur, prefix, mirror);
      RunOneMore(Empty(cooldownDur), ops);
      hide Run, BackoffAfter;
      CircuitStep(Run(Empty(cooldownDur), prefix), op, mirror);
    }
  }

  lemma CircuitStep(q: Queue, op: Op, mirror: string)
    ensures var q', n := Step(q, op), Failures(q, mirror) + 1;
            if op == Succeed(mirror) then Failures(q', mirror) == 0 && BackoffUntil(q', mirror) == 0
            else if op.Fail? && op.mirror == mirror then
              && Failures(q', mirror) == n
              && BackoffUntil(q', mirror)
                 == if n >= BREAKER_THRESHOLD then op.now + BackoffAfter(n) else BackoffUntil(q, mirror)
            else Failures(q', mirror) == Failures(q, mirror) && BackoffUntil(q', mirror) == BackoffUntil(q, mirror)
  {
    hide Key, Eligible, FirstEligible, IndexOfKey, BackoffAfter, CooldownFor, After;
  }

  /** In any run, a mirror is paused at a time exactly when it has failed at least three times since its
      last success and the backoff for that many failures, counted from the last of them, is not over. */
  lemma MirrorPausedIff(cooldownDur: int, ops: seq<Op>, mirror: string, t: nat)
    ensures MirrorPaused(Run(Empty(cooldownDur), ops), mirror, t) <==> PausedByHistory(ops, mirror, t)
  {
    CircuitByHistory(cooldownDur, ops, mirror);
    hide Run, BackoffAfter, FailuresInRow, LastFailure;
  }

  // ----- cooldowns

  /** No clock reading of the run is before an earlier one. */
  ghost predicate ClockNeverBack(ops: seq<Op>) {
    forall i, j :: 0 <= i < j < |ops| && ClockOf(ops[i]).Some? && ClockOf(ops[j]).Some?
                   ==> ClockOf(ops[i]).value <= ClockOf(ops[j]).value
  }

  /** t is not before any clock reading of the run. */
  ghost predicate NotBefore(ops: seq<Op>, t: Time) {
    forall op :: op in ops && ClockOf(op).Some? ==> ClockOf(op).value <= t
  }

  /** When the file's syncs were reported. */
  function SyncTimes(ops: seq<Op>, key: string): seq<Time> {
    if ops == [] then []
    else
      var op := ops[|ops| - 1];
      SyncTimes(ops[..|ops| - 1], key) + if op.CoolAdaptively? && op.key == key then [op.now] else []
  }

  lemma {:induction false} SyncTimesNotAfter(ops: seq<Op>, key: string, t: Time)
    requires NotBefore(ops, t)
    ensures forall x :: x in SyncTimes(ops, key) ==> x <= t
  {
    if ops != [] {
      var prefix, op := ops[..|ops| - 1], ops[|ops| - 1];
      assert op in ops && forall o :: o in prefix ==> o in ops;
      SyncTimesNotAfter(prefix, key, t);
    }
  }

  lemma AfterOneMore(times: seq<Time>, last: Time, cutoff: Time)
    ensures After(times + [last], cutoff) == After(times, cutoff) + if last > cutoff then [last] else []
  {
    assert (times + [last])[..|times|] == times;
  }

  lemma {:induction false} AfterTwice(times: seq<Time>, early: Time, late: Time)
    requires early <= late
    ensures After(After(times, early), late) == After(times, late)
  {
    if times != [] {
      var prefix, last := times[..|times| - 1], times[|times| - 1];
      AfterTwice(prefix, early, late);
      assert times == prefix + [last];
      AfterOneMore(prefix, last, early);
      AfterOneMore(prefix, last, late);
      AfterOneMore(After(prefix, early), last, late);
      assert After(prefix, early) + [] == After(prefix, early) && After(prefix, late) + [] == After(prefix, late);
      hide After;
    }
  }

  /** The last of the times, and those in the minute before it. */
  function RecentSyncs(times: seq<Time>): seq<Time> {
    if times == [] then [] else After(times, times[|times| - 1] - 60 * SECOND)
  }

  /** The event history of a file holds its syncs in the minute before the last one, and that one. */
  lemma {:induction false} HistoryByRun(cooldownDur: int, ops: seq<Op>, key: string)
    requires ClockNeverBack(ops) && key != ""
    ensures History(Run(Empty(cooldownDur), ops), key) == RecentSyncs(SyncTimes(ops, key))
    decreases |ops|
  {
    if ops != [] {
      var prefix, op := ops[..|ops| - 1], ops[|ops| - 1];
      assert ops == prefix + [op];
      HistoryByRun(cooldownDur, prefix, key);
      RunOneMore(Empty(cooldownDur), ops);
      hide Run, Step, History, RecentSyncs, SyncTimes;
      HistoryOneMore(Run(Empty(cooldownDur), prefix), prefix, op, key);
    }
  }

  lemma SyncTimesOneMore(prefix: seq<Op>, op: Op, key: string)
    ensures SyncTimes(prefix + [op], key)
            == if op.CoolAdaptively? && op.key == key then SyncTimes(prefix, key) + [op.now] else SyncTimes(prefix, key)
  {
    assert (prefix + [op])[..|prefix|] == prefix;
    assert SyncTimes(prefix, key) + [] == SyncTimes(prefix, key);
  }

  lemma HistoryOneMore(q: Queue, prefix: seq<Op>, op: Op, key: string)
    requires ClockNeverBack(prefix + [op]) && key != ""
    requires History(q, key) == RecentSyncs(SyncTimes(prefix, key))
    ensures History(Step(q, op), key) == RecentSyncs(SyncTimes(prefix + [op], key))
  {
    hide Step, History, RecentSyncs, SyncTimes, After, ClockNeverBack, NotBefore;
    HistoryStep(q, op, key);
    SyncTimesOneMore(prefix, op, key);
    if op.CoolAdaptively? && op.key == key {
      assert ClockOf(op) == Some(op.now);
      LastClock(prefix, op);
      SyncTimesNotAfter(prefix, key, op.now);
      OneMoreSync(SyncTimes(prefix, key), op.now);
    }
  }

  lemma LastClock(prefix: seq<Op>, op: Op)
    requires ClockNeverBack(prefix + [op]) && ClockOf(op).Some?
    ensures NotBefore(prefix, ClockOf(op).value)
  {
    var ops := prefix + [op];
    forall o | o in prefix && ClockOf(o).Some? ensures ClockOf(o).value <= ClockOf(op).value {
      var i :| 0 <= i < |prefix| && prefix[i] == o;
      assert ops[i] == o && ops[|prefix|] == op;
    }
  }

  lemma HistoryStep(q: Queue, op: Op, key: string)
    requires key != ""
    ensures History(Step(q, op), key)
            == if op.CoolAdaptively? && op.key == key then After(History(q, key), op.now - 60 * SECOND) + [op.now]
               else History(q, key)
  {
    hide Key, Eligible, FirstEligible, IndexOfKey, BackoffAfter, CooldownFor, After;
  }

  lemma RecentSyncsUpTo(times: seq<Time>, now: Time)
    ensures RecentSyncs(times + [now]) == After(times + [now], now - 60 * SECOND)
  {
    hide After;
  }

  lemma OneMoreSync(times: seq<Time>, now: Time)
    requires forall t :: t in times ==> t <= now
    ensures RecentSyncs(times + [now]) == After(RecentSyncs(times), now - 60 * SECOND) + [now]
  {
    RecentSyncsUpTo(times, now);
    AfterOneMore(times, now, now - 60 * SECOND);
    if times == [] {
      assert RecentSyncs(times) == [] && After([], now - 60 * SECOND) == [];
    } else {
      var last := times[|times| - 1];
      assert last in times;
      assert RecentSyncs(times) == After(times, last - 60 * SECOND);
      AfterTwice(times, last - 60 * SECOND, now - 60 * SECOND);
    }
    hide After, RecentSyncs;
  }

  /** The end of the file's cooldown, as the last call that set one decided: the configured one, or the one
      for the length of the sync and the number of the file's syncs in the last minute. */
  function CooldownEnd(ops: seq<Op>, key: string, cooldownDur: int): Time {
    if ops == [] then 0
    else
      var op := ops[|ops| - 1];
      if op.Cool? && op.key == key && cooldownDur > 0 then op.now + cooldownDur
      else if op.CoolAdaptively? && op.key == key then
        op.now + CooldownFor(|RecentSyncs(SyncTimes(ops, key))|, op.syncDuration)
      else CooldownEnd(ops[..|ops| - 1], key, cooldownDur)
  }

  /** A cooldown on record is the one decided last, and one that is not on record is over. */
  lemma {:induction false} CooldownByHistory(cooldownDur: int, ops: seq<Op>, key: string, t: Time)
    requires ClockNeverBack(ops) && NotBefore(ops, t) && key != "" && t >= 0
    ensures var q, end := Run(Empty(cooldownDur), ops), CooldownEnd(ops, key, cooldownDur);
            && q.cooldownDur == cooldownDur
            && if key in q.cooldowns then q.cooldowns[key] == end else end <= t
    decreases |ops|
  {
    if ops != [] {
      var prefix, op := ops[..|ops| - 1], ops[|ops| - 1];
      assert op in ops && forall o :: o in prefix ==> o in ops;
      CooldownByHistory(cooldownDur, prefix, key, t);
      HistoryByRun(cooldownDur, ops, key);
      RunOneMore(Empty(cooldownDur), ops);
      hide Run, CooldownFor, After;
      CooldownStep(Run(Empty(cooldownDur), prefix), op, key);
    }
  }

  lemma CooldownStep(q: Queue, op: Op, key: string)
    requires key != ""
    ensures var q' := Step(q, op);
            && q'.cooldownDur == q.cooldownDur
            && if op.Cool? && op.key == key && q.cooldownDur > 0 then
                 key in q'.cooldowns && q'.cooldowns[key] == op.now + q.cooldownDur
               else if op.CoolAdaptively? && op.key == key then
                 key in q'.cooldowns
                 && q'.cooldowns[key] == op.now + CooldownFor(|History(q', key)|, op.syncDuration)
               else
                 && (key in q'.cooldowns ==> key in q.cooldowns && q'.cooldowns[key] == q.cooldowns[key])
                 && (key in q.cooldowns && key !in q'.cooldowns ==> op.Get? && q.cooldowns[key] <= op.now)
  {
    hide Key, IndexOfKey, Eligible, FirstEligible, BackoffAfter, CooldownFor, After;
    if op.Get? {
      HandingOutKeepsCooldown(q, op.now, op.cancelled, key);
      hide AfterPass;
    }
  }

  lemma HandingOutKeepsCooldown(q: Queue, now: nat, cancelled: bool, key: string)
    ensures var q' := AfterPass(q, now, cancelled);
            && q'.cooldownDur == q.cooldownDur
            && (key in q'.cooldowns ==> key in q.cooldowns && q'.cooldowns[key] == q.cooldowns[key])
            && (key in q.cooldowns && key !in q'.cooldowns ==> q.cooldowns[key] <= now)
  {
    hide Key, FirstEligible;
  }

  /** In any run whose clock does not go back, a file is cooling at a time not before the run exactly until
      the end of its last cooldown. */
  lemma CoolingIff(cooldownDur: int, ops: seq<Op>, key: string, t: nat)
    requires ClockNeverBack(ops) && NotBefore(ops, t) && key != ""
    ensures Cooling(Run(Empty(cooldownDur), ops), key, t) <==> t < CooldownEnd(ops, key, cooldownDur)
  {
    CooldownByHistory(cooldownDur, ops, key, t);
    hide Run, CooldownEnd;
  }

  // ----- what a pass hands out

  /** A task may run: a delete always, a full sync when its mirror is not paused, and the sync of a file
      when that file's cooldown is over as well. */
  predicate Ready(ops: seq<Op>, cooldownDur: int, task: Task, t: Time) {
    task.kind == TaskDelete
    || (!PausedByHistory(ops, task.mirror, t)
        && (task.relPath == "" || t >= CooldownEnd(ops, Key(task), cooldownDur)))
  }

  lemma ReadyIff(cooldownDur: int, ops: seq<Op>, task: Task, t: nat)
    requires ClockNeverBack(ops) && NotBefore(ops, t)
    ensures Eligible(Run(Empty(cooldownDur), ops), task, t) <==> Ready(ops, cooldownDur, task, t)
  {
    MirrorPausedIff(cooldownDur, ops, task.mirror, t);
    assert task.relPath != "" <==> Key(task) != "";
    if Key(task) != "" { CoolingIff(cooldownDur, ops, Key(task), t); }
    hide Run, CooldownEnd, Key, MirrorPaused, Cooling, PausedByHistory;
  }

  /** In any run whose clock does not go back, a pass that is not cancelled hands out the first queued task
      that may run by the history of calls, if there is one, and otherwise none. */
  lemma PassHandsOutFirstReady(cooldownDur: int, ops: seq<Op>, now: nat)
    requires ClockNeverBack(ops) && NotBefore(ops, now)
    ensures var items := Run(Empty(cooldownDur), ops).items;
            var r := Pass(Run(Empty(cooldownDur), ops), now, false);
            if exists i :: 0 <= i < |items| && Ready(ops, cooldownDur, items[i], now) then
              exists i :: 0 <= i < |items| && r == Taken(items[i]) && Ready(ops, cooldownDur, items[i], now)
                          && forall j :: 0 <= j < i ==> !Ready(ops, cooldownDur, items[j], now)
            else !r.Taken?
  {
    var q := Run(Empty(cooldownDur), ops);
    forall task ensures Eligible(q, task, now) <==> Ready(ops, cooldownDur, task, now) {
      ReadyIff(cooldownDur, ops, task, now);
    }
    hide Run, Eligible, Ready;
    var i := FirstEligible(q, q.items, now);
    assert i < |q.items| ==> Pass(q, now, false) == Taken(q.items[i]);
  }

  /** A wait for a time ends when something that holds back a queued task is over: its mirror's pause or its
      file's cooldown. */
  lemma WaitEndsWithAnObstacle(q: Queue, now: nat)
    requires Pass(q, now, false).WaitUntil?
    ensures var e := Pass(q, now, false).time;
            exists t :: t in q.items
              && ((MirrorPaused(q, t.mirror, now) && q.circuits[t.mirror].backoffUntil == e)
                  || (Key(t) != "" && Cooling(q, Key(t), now) && q.cooldowns[Key(t)] == e))
  {
    var e := Pass(q, now, false).time;
    assert forall t :: t in q.items ==> !Eligible(q, t, now) by {
      assert forall j :: 0 <= j < |q.items| ==> !Eligible(q, q.items[j], now);
    }
    var t :| t in q.items && Blocker(q, t, now) == e;
    hide EarliestExpiry, FirstEligible;
  }

  // ----- what is accepted

  /** A task is accepted exactly when the queue is open and has room, counting the place that a pending
      entry of the same file gives up. */
  lemma AcceptedIff(q: Queue, t: Task)
    requires PendingIsQueued(q)
    ensures Accepts(q, t)
            <==> !q.closed && (|q.items| < 100_000 || (|q.items| == 100_000 && Key(t) in q.pending))
  {
    hide Key;
    var i := IndexOfKey(q.items, Key(t));
    if Key(t) in q.pending {
      assert Key(t) != "" && HasKey(q.items, Key(t));
      assert i < |q.items|;
    }
  }

  // ----- the depth warning

  /** The depths that accepted tasks have left behind. */
  ghost function Depths(cooldownDur: int, ops: seq<Op>): seq<nat> {
    if ops == [] then []
    else
      var prefix, op := ops[..|ops| - 1], ops[|ops| - 1];
      Depths(cooldownDur, prefix) +
      if op.Put? && Accepts(Run(Empty(cooldownDur), prefix), op.task)
      then [|Run(Empty(cooldownDur), ops).items|] else []
  }

  /** The queue has overflowed and has not been drained since. */
  ghost predicate Overflowing(depths: seq<nat>) {
    exists i :: 0 <= i < |depths| && depths[i] >= 50_000 && NotDrainedFrom(depths, i)
  }

  ghost predicate NotDrainedFrom(depths: seq<nat>, i: nat) {
    forall j :: i <= j < |depths| ==> depths[j] >= 25_000
  }

  /** How often the queue has begun to overflow. */
  ghost function Overflows(depths: seq<nat>): nat {
    if depths == [] then 0
    else
      var earlier := depths[..|depths| - 1];
      Overflows(earlier) + if depths[|depths| - 1] >= 50_000 && !Overflowing(earlier) then 1 else 0
  }

  lemma OneMoreDepth(depths: seq<nat>, d: nat)
    ensures Overflowing(depths + [d]) <==> d >= 50_000 || (d >= 25_000 && Overflowing(depths))
    ensures Overflows(depths + [d])
            == Overflows(depths) + if d >= 50_000 && !Overflowing(depths) then 1 else 0
  {
    var more := depths + [d];
    assert more[..|depths|] == depths && more[|depths|] == d;
    assert forall i :: 0 <= i < |depths| ==> more[i] == depths[i];
    if Overflowing(depths) && d >= 25_000 {
      var i :| 0 <= i < |depths| && depths[i] >= 50_000 && NotDrainedFrom(depths, i);
      assert NotDrainedFrom(more, i) && more[i] >= 50_000;
    }
    if d >= 50_000 {
      assert NotDrainedFrom(more, |depths|);
    }
    if Overflowing(more) && d < 50_000 {
      var i :| 0 <= i < |more| && more[i] >= 50_000 && NotDrainedFrom(more, i);
      assert more[|depths|] >= 25_000;
      assert NotDrainedFrom(depths, i);
    }
  }

  lemma WarningStep(q: Queue, op: Op)
    ensures var q' := Step(q, op);
            if op.Put? && Accepts(q, op.task) then
              && q'.overflowFired == (|q'.items| >= OVERFLOW_DEPTH || (|q'.items| >= DRAINED_DEPTH && q.overflowFired))
              && q'.overflowSignals
                 == q.overflowSignals + if |q'.items| >= OVERFLOW_DEPTH && !q.overflowFired then 1 else 0
            else q'.overflowFired == q.overflowFired && q'.overflowSignals == q.overflowSignals
  {
    hide Key, IndexOfKey, Eligible, FirstEligible, CooldownFor, After, BackoffAfter;
  }

  /** In any run, the warning has fired as often as the depth has come to 50000, counting anew only after
      it has been below 25000. */
  lemma {:induction false} WarningsByDepth(cooldownDur: int, ops: seq<Op>)
    ensures var q := Run(Empty(cooldownDur), ops);
            && q.overflowSignals == Overflows(Depths(cooldownDur, ops))
            && (q.overflowFired <==> Overflowing(Depths(cooldownDur, ops)))
    decreases |ops|
  {
    hide Run, Step, Accepts, Overflowing, Overflows;
    if ops == [] {
      NoDepths();
      assert Run(Empty(cooldownDur), []) == Empty(cooldownDur) by { RunNothing(Empty(cooldownDur)); }
    } else {
      var prefix, op := ops[..|ops| - 1], ops[|ops| - 1];
      WarningsByDepth(cooldownDur, prefix);
      RunOneMore(Empty(cooldownDur), ops);
      var q, depths := Run(Empty(cooldownDur), prefix), Depths(cooldownDur, prefix);
      WarningStep(q, op);
      OneMoreDepth(depths, |Step(q, op).items|);
      assert depths + [] == depths;
    }
  }

  lemma RunNothing(q: Queue)
    ensures Run(q, []) == q
  {
  }

  lemma NoDepths()
    ensures !Overflowing([]) && Overflows([]) == 0
  {
  }
}
