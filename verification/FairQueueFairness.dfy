/** No file starves: however often hot files are re-enqueued behind it, a queued item reaches the front. */
module FairQueueFairness {
  import opened FairQueueSpec
  import opened FairQueueRuns

  /** Where the item at position p is after the step, unless the step removes it. */
  function Track(q: Queue, op: Op, p: nat): nat
    requires p < |q.items|
  {
    match op
    case Put(t) =>
      if Displaced(q, t) != [] && IndexOfKey(q.items, Key(t)) < p then p - 1 else p
    case PutFirst(t) => if q.closed then p else p + 1
    case Get(now, cancelled) => if !cancelled && FirstEligible(q, q.items, now) < p then p - 1 else p
    case _ => p
  }

  predicate Serves(q: Queue, op: Op, p: nat) {
    op.Get? && !op.cancelled && p < |q.items| && FirstEligible(q, q.items, op.now) == p
  }

  /** The step does not re-enqueue the item's file, and finds the item eligible if it scans for one. */
  predicate LetsBe(q: Queue, op: Op, p: nat)
    requires p < |q.items|
  {
    && (op.Put? ==> Key(op.task) == "" || Key(op.task) != Key(q.items[p]))
    && (op.Get? ==> Eligible(q, q.items[p], op.now))
  }

  lemma TrackFollows(q: Queue, op: Op, p: nat)
    requires p < |q.items| && LetsBe(q, op, p) && !Serves(q, op, p)
    ensures Track(q, op, p) < |Step(q, op).items|
    ensures Step(q, op).items[Track(q, op, p)] == q.items[p]
  {
    hide Key, Eligible;
    match op
    case Put(t) => EnqueueKeepsItem(q, t, p);
    case _ =>
  }

  lemma EnqueueKeepsItem(q: Queue, t: Task, p: nat)
    requires p < |q.items| && (Key(t) == "" || Key(t) != Key(q.items[p]))
    ensures Track(q, Put(t), p) < |Enqueue(q, t).items|
    ensures Enqueue(q, t).items[Track(q, Put(t), p)] == q.items[p]
  {
    hide Key;
    if !q.closed {
      assert Track(q, Put(t), p) < |Deduplicated(q, t).items|
             && Deduplicated(q, t).items[Track(q, Put(t), p)] == q.items[p];
      EnqueueItems(q, t);
    }
  }

  /** The item is left alone until it is handed out. */
  ghost predicate LeftAlone(q: Queue, ops: seq<Op>, p: nat)
    requires p < |q.items|
    decreases |ops|
  {
    ops != [] ==>
      LetsBe(q, ops[0], p) &&
      (!Serves(q, ops[0], p) ==>
         (TrackFollows(q, ops[0], p); LeftAlone(Step(q, ops[0]), ops[1..], Track(q, ops[0], p))))
  }

  /** That very item, not one that looks like it, is handed out during the run. */
  ghost predicate Served(q: Queue, ops: seq<Op>, p: nat)
    requires p < |q.items| && LeftAlone(q, ops, p)
    decreases |ops|
  {
    ops != [] &&
    (!Serves(q, ops[0], p) ==>
       (TrackFollows(q, ops[0], p); Served(Step(q, ops[0]), ops[1..], Track(q, ops[0], p))))
  }

  lemma StepTakes(q: Queue, op: Op, p: nat)
    requires p < |q.items| && LetsBe(q, op, p) && !Serves(q, op, p)
    ensures Track(q, op, p) + |StepLedger(q, op).handedOut| <= p + (if op.PutFirst? then 1 else 0)
  {
    hide Key, Eligible, Accepts, Displaced;
  }

  /** No starvation: as soon as the run has handed out more tasks than stood before the item, counting
      each priority insert as one more, the item has been handed out. */
  lemma {:induction false} NoStarvation(q: Queue, ops: seq<Op>, p: nat)
    requires p < |q.items| && LeftAlone(q, ops, p)
    requires |RunLedger(q, ops).handedOut| > p + PriorityInserts(ops)
    ensures Served(q, ops, p)
    decreases |ops|
  {
    hide Step, StepLedger, Track, Serves, LetsBe;
    assert ops != [];
    if !Serves(q, ops[0], p) {
      TrackFollows(q, ops[0], p);
      StepTakes(q, ops[0], p);
      NoStarvation(Step(q, ops[0]), ops[1..], Track(q, ops[0], p));
    }
  }

  /** Being served means that the task is among those handed out. */
  lemma {:induction false} ServedIsHandedOut(q: Queue, ops: seq<Op>, p: nat)
    requires p < |q.items| && LeftAlone(q, ops, p) && Served(q, ops, p)
    ensures q.items[p] in RunLedger(q, ops).handedOut
    decreases |ops|
  {
    var l, later := StepLedger(q, ops[0]), RunLedger(Step(q, ops[0]), ops[1..]);
    assert RunLedger(q, ops).handedOut == l.handedOut + later.handedOut;
    if Serves(q, ops[0], p) {
      assert l.handedOut == [q.items[p]];
    } else {
      hide Step, StepLedger, Track, Serves, LetsBe;
      TrackFollows(q, ops[0], p);
      ServedIsHandedOut(Step(q, ops[0]), ops[1..], Track(q, ops[0], p));
    }
  }
}
