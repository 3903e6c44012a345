/** What the task queue guarantees over whole runs: any finite sequence of calls, in any order, with any
    clock readings. */
module FairQueueRuns {
  import opened Backoff
  import opened FairQueueSpec
  import opened Wrappers

  datatype Op =
    | Put(task: Task)
    | PutFirst(task: Task)
    | Cool(key: string, now: nat)
    | CoolAdaptively(key: string, syncDuration: int, now: nat)
    | Fail(mirror: string, now: nat)
    | Succeed(mirror: string)
    | Get(now: nat, cancelled: bool)
    | Shut

  function Step(q: Queue, op: Op): Queue {
    match op
    case Put(t) => Enqueue(q, t)
    case PutFirst(t) => EnqueuePriority(q, t)
    case Cool(key, now) => SetCooldown(q, key, now)
    case CoolAdaptively(key, d, now) => SetAdaptiveCooldown(q, key, d, now)
    case Fail(m, now) => RecordFailure(q, m, now)
    case Succeed(m) => RecordSuccess(q, m)
    case Get(now, cancelled) => AfterPass(q, now, cancelled)
    case Shut => q.(closed := true)
  }

  function Run(q: Queue, ops: seq<Op>): Queue
    decreases |ops|
  {
    if ops == [] then q else Run(Step(q, ops[0]), ops[1..])
  }

  /** The tasks that went into the queue, were handed out, or were thrown out by a newer entry. */
  datatype Ledger = Ledger(accepted: seq<Task>, handedOut: seq<Task>, displaced: seq<Task>)

  function Join(a: Ledger, b: Ledger): Ledger {
    Ledger(a.accepted + b.accepted, a.handedOut + b.handedOut, a.displaced + b.displaced)
  }

  function StepLedger(q: Queue, op: Op): Ledger {
    match op
    case Put(t) => Ledger(if Accepts(q, t) then [t] else [], [], Displaced(q, t))
    case PutFirst(t) => Ledger(if q.closed then [] else [t], [], [])
    case Get(now, cancelled) =>
      var r := Pass(q, now, cancelled);
      Ledger([], if r.Taken? then [r.task] else [], [])
    case _ => Ledger([], [], [])
  }

  function RunLedger(q: Queue, ops: seq<Op>): Ledger
    decreases |ops|
  {
    if ops == [] then Ledger([], [], [])
    else
      Join(StepLedger(q, ops[0]), RunLedger(Step(q, ops[0]), ops[1..]))
  }

  // ----- conservation

  function Dones(ts: seq<Task>): seq<nat> {
    if ts == [] then [] else DoneOf(ts[0]) + Dones(ts[1..])
  }

  lemma {:induction false} DonesConcat(a: seq<Task>, b: seq<Task>)
    ensures Dones(a + b) == Dones(a) + Dones(b)
  {
    if a == [] {
      assert a + b == b;
    } else {
      assert (a + b)[1..] == a[1..] + b;
      DonesConcat(a[1..], b);
    }
  }

  function Count(s: seq<Task>, t: Task): nat {
    multiset(s)[t]
  }

  lemma CountConcat(a: seq<Task>, b: seq<Task>, t: Task)
    ensures Count(a + b, t) == Count(a, t) + Count(b, t)
  {
  }

  lemma CountRemoved(s: seq<Task>, i: nat, t: Task)
    requires i < |s|
    ensures Count(s, t) == Count(RemoveAt(s, i), t) + Count([s[i]], t)
  {
    assert s == s[..i] + [s[i]] + s[i + 1..];
  }

  /** Every task is in as often as it is out, and the displaced tasks' callbacks have been started. */
  ghost predicate Balanced(q: Queue, l: Ledger, q': Queue) {
    && (forall t :: Count(q.items, t) + Count(l.accepted, t)
                    == Count(q'.items, t) + Count(l.handedOut, t) + Count(l.displaced, t))
    && q'.doneFired == q.doneFired + Dones(l.displaced)
  }

  lemma DedupConserves(q: Queue, t: Task, u: Task)
    requires !q.closed
    ensures Count(q.items, u) == Count(Deduplicated(q, t).items, u) + Count(Displaced(q, t), u)
    ensures Deduplicated(q, t).doneFired == q.doneFired + Dones(Displaced(q, t))
  {
    hide Key, IndexOfKey, Count;
    var i := IndexOfKey(q.items, Key(t));
    assert Dones([]) == [];
    if Displaced(q, t) != [] {
      CountRemoved(q.items, i, u);
      assert Dones([q.items[i]]) == DoneOf(q.items[i]);
    } else {
      CountConcat(q.items, [], u);
      assert q.items + [] == q.items;
    }
  }

  lemma EnqueueItems(q: Queue, t: Task)
    requires !q.closed
    ensures Enqueue(q, t).items == Deduplicated(q, t).items + StepLedger(q, Put(t)).accepted
    ensures Enqueue(q, t).doneFired == Deduplicated(q, t).doneFired
  {
    hide Key, Deduplicated, Displaced;
  }

  lemma EnqueueConserves(q: Queue, t: Task)
    ensures Balanced(q, StepLedger(q, Put(t)), Enqueue(q, t))
  {
    hide Key;
    var l, q' := StepLedger(q, Put(t)), Enqueue(q, t);
    assert Dones([]) == [] && l.handedOut == [] && l.displaced == Displaced(q, t);
    assert q.closed ==> l == Ledger([], [], []) && q' == q;
    hide Enqueue, StepLedger, Displaced, Deduplicated, Count;
    if !q.closed {
      EnqueueItems(q, t);
      forall u ensures Count(q.items, u) + Count(l.accepted, u)
                       == Count(q'.items, u) + Count(l.handedOut, u) + Count(l.displaced, u)
      {
        DedupConserves(q, t, u);
        CountConcat(Deduplicated(q, t).items, l.accepted, u);
        CountConcat(l.handedOut, l.handedOut, u);
        assert l.handedOut + l.handedOut == l.handedOut;
      }
      assert q'.doneFired == q.doneFired + Dones(l.displaced) by {
        DedupConserves(q, t, t);
      }
    }
  }

  lemma HandingOutConserves(q: Queue, i: nat, q': Queue)
    requires i < |q.items| && q'.items == RemoveAt(q.items, i) && q'.doneFired == q.doneFired
    ensures Balanced(q, Ledger([], [q.items[i]], []), q')
  {
    assert Dones([]) == [];
    hide RemoveAt;
    forall u { CountRemoved(q.items, i, u); }
  }

  lemma PassConserves(q: Queue, now: nat, cancelled: bool)
    ensures Balanced(q, StepLedger(q, Get(now, cancelled)), AfterPass(q, now, cancelled))
  {
    hide Key, Eligible, FirstEligible, EarliestExpiry;
    var i := FirstEligible(q, q.items, now);
    if !cancelled && i < |q.items| {
      assert StepLedger(q, Get(now, cancelled)) == Ledger([], [q.items[i]], []);
      assert AfterPass(q, now, cancelled) == Take(q, i);
      HandingOutConserves(q, i, Take(q, i));
      hide AfterPass, StepLedger, Take;
    } else {
      assert StepLedger(q, Get(now, cancelled)) == Ledger([], [], []) && Dones([]) == [];
    }
  }

  lemma PriorityConserves(q: Queue, t: Task)
    ensures Balanced(q, StepLedger(q, PutFirst(t)), EnqueuePriority(q, t))
  {
    assert Dones([]) == [];
    if !q.closed {
      forall u { CountConcat([t], q.items, u); }
    }
  }

  /** The other operations leave the items alone. */
  lemma OtherStepConserves(q: Queue, op: Op)
    requires !op.Put? && !op.PutFirst? && !op.Get?
    ensures Step(q, op).items == q.items && Step(q, op).doneFired == q.doneFired
    ensures Balanced(q, StepLedger(q, op), Step(q, op))
  {
    hide Key, CooldownFor, After, BackoffAfter;
    assert StepLedger(q, op) == Ledger([], [], []) && Dones([]) == [];
    assert Step(q, op).items == q.items && Step(q, op).doneFired == q.doneFired;
    hide Step, StepLedger;
  }

  lemma StepConserves(q: Queue, op: Op)
    ensures Balanced(q, StepLedger(q, op), Step(q, op))
  {
    hide StepLedger, Enqueue, AfterPass, EnqueuePriority;
    match op
    case Put(t) => EnqueueConserves(q, t);
    case Get(now, cancelled) => PassConserves(q, now, cancelled);
    case PutFirst(t) => PriorityConserves(q, t);
    case _ => OtherStepConserves(q, op);
  }

  lemma BalancedJoin(q: Queue, l: Ledger, q1: Queue, l1: Ledger, q2: Queue)
    requires Balanced(q, l, q1) && Balanced(q1, l1, q2)
    ensures Balanced(q, Join(l, l1), q2)
  {
    hide Count;
    DonesConcat(l.displaced, l1.displaced);
    forall t ensures Count(q.items, t) + Count(Join(l, l1).accepted, t)
                     == Count(q2.items, t) + Count(Join(l, l1).handedOut, t) + Count(Join(l, l1).displaced, t)
    {
      CountConcat(l.accepted, l1.accepted, t);
      CountConcat(l.handedOut, l1.handedOut, t);
      CountConcat(l.displaced, l1.displaced, t);
    }
  }

  /** No task is lost or invented: what was queued or accepted is still queued, was handed out, or was
      displaced; and the callback of each displaced task was started exactly once, in that order. */
  lemma {:induction false} Conservation(q: Queue, ops: seq<Op>)
    ensures Balanced(q, RunLedger(q, ops), Run(q, ops))
    decreases |ops|
  {
    hide Step, StepLedger;
    if ops == [] {
      assert Balanced(q, Ledger([], [], []), q) by { assert Dones([]) == []; }
    } else {
      var q1 := Step(q, ops[0]);
      StepConserves(q, ops[0]);
      Conservation(q1, ops[1..]);
      BalancedJoin(q, StepLedger(q, ops[0]), q1, RunLedger(q1, ops[1..]), Run(q, ops));
    }
  }

  /** The same, from an empty queue, as an equation of multisets. */
  lemma ConservationFromEmpty(cooldownDur: int, ops: seq<Op>)
    ensures var l, q := RunLedger(Empty(cooldownDur), ops), Run(Empty(cooldownDur), ops);
            && multiset(l.accepted) == multiset(q.items) + multiset(l.handedOut) + multiset(l.displaced)
            && q.doneFired == Dones(l.displaced)
  {
    hide Step, StepLedger;
    var l, q := RunLedger(Empty(cooldownDur), ops), Run(Empty(cooldownDur), ops);
    Conservation(Empty(cooldownDur), ops);
    hide Run, RunLedger;
    assert forall t :: multiset(l.accepted)[t] == Count(l.accepted, t) + Count([], t);
  }

  function PriorityInserts(ops: seq<Op>): nat {
    if ops == [] then 0 else (if ops[0].PutFirst? then 1 else 0) + PriorityInserts(ops[1..])
  }

  lemma StepLength(q: Queue, op: Op)
    ensures |Step(q, op).items| <= Max(|q.items|, HARD_CAP) + if op.PutFirst? then 1 else 0
  {
    hide Key, Eligible, IndexOfKey, FirstEligible, CooldownFor, After, BackoffAfter;
    if op.Put? && !q.closed {
      EnqueueItems(q, op.task);
      assert |Deduplicated(q, op.task).items| <= |q.items|;
      hide Enqueue, Deduplicated;
    }
  }

  /** Only priority inserts can push the queue past the hard cap. */
  lemma {:induction false} LengthBound(q: Queue, ops: seq<Op>, bound: nat)
    requires |q.items| <= bound && 100_000 <= bound
    ensures |Run(q, ops).items| <= bound + PriorityInserts(ops)
    decreases |ops|
  {
    hide Step;
    if ops != [] {
      StepLength(q, ops[0]);
      LengthBound(Step(q, ops[0]), ops[1..], if ops[0].PutFirst? then bound + 1 else bound);
    }
  }

  // ----- the pending set

  ghost predicate HasKey(items: seq<Task>, key: string) {
    exists i :: 0 <= i < |items| && Key(items[i]) == key
  }

  ghost predicate PendingIsQueued(q: Queue) {
    forall k :: k in q.pending ==> k != "" && HasKey(q.items, k)
  }

  lemma OtherKeysStay(items: seq<Task>, i: nat, key: string)
    requires i < |items| && HasKey(items, key) && Key(items[i]) != key
    ensures HasKey(RemoveAt(items, i), key)
  {
    var j :| 0 <= j < |items| && Key(items[j]) == key;
    assert Key(RemoveAt(items, i)[if j < i then j else j - 1]) == key;
  }

  lemma RemovalKeepsPending(q: Queue, i: nat, q': Queue)
    requires PendingIsQueued(q) && i < |q.items|
    requires q'.items == RemoveAt(q.items, i) && q'.pending == q.pending - {Key(q.items[i])}
    ensures PendingIsQueued(q')
  {
    forall k | k in q'.pending ensures HasKey(q'.items, k) {
      OtherKeysStay(q.items, i, k);
    }
  }

  lemma AppendKeepsPending(q: Queue, t: Task, q': Queue)
    requires PendingIsQueued(q) && q'.items == q.items + [t]
    requires q'.pending == if Key(t) != "" then q.pending + {Key(t)} else q.pending
    ensures PendingIsQueued(q')
  {
    forall k | k in q'.pending ensures HasKey(q'.items, k) {
      if k in q.pending {
        var j :| 0 <= j < |q.items| && Key(q.items[j]) == k;
        assert Key(q'.items[j]) == k;
      } else {
        assert Key(q'.items[|q.items|]) == k;
      }
    }
  }

  lemma DedupKeepsPending(q: Queue, t: Task)
    requires PendingIsQueued(q)
    ensures PendingIsQueued(Deduplicated(q, t))
  {
    var i := IndexOfKey(q.items, Key(t));
    if Key(t) != "" && Key(t) in q.pending && i < |q.items| {
      RemovalKeepsPending(q, i, Deduplicated(q, t));
    }
  }

  lemma StepKeepsPending(q: Queue, op: Op)
    requires PendingIsQueued(q)
    ensures PendingIsQueued(Step(q, op))
  {
    hide Key, Enqueue, EnqueuePriority, Pass, AfterPass, CooldownFor, After, BackoffAfter;
    match op
    case Put(t) => EnqueueKeepsPending(q, t);
    case PutFirst(t) => PriorityKeepsPending(q, t);
    case Get(now, cancelled) => PassKeepsPending(q, now, cancelled);
    case _ =>
  }

  lemma EnqueueKeepsPending(q: Queue, t: Task)
    requires PendingIsQueued(q)
    ensures PendingIsQueued(Enqueue(q, t))
  {
    hide Key;
    DedupKeepsPending(q, t);
    if Accepts(q, t) { AppendKeepsPending(Deduplicated(q, t), t, Enqueue(q, t)); }
    hide Deduplicated;
  }

  lemma PriorityKeepsPending(q: Queue, t: Task)
    requires PendingIsQueued(q)
    ensures PendingIsQueued(EnqueuePriority(q, t))
  {
    hide Key;
    forall k | k in q.pending ensures HasKey(EnqueuePriority(q, t).items, k) {
      var j :| 0 <= j < |q.items| && Key(q.items[j]) == k;
      assert !q.closed ==> Key(EnqueuePriority(q, t).items[j + 1]) == k;
    }
  }

  lemma PassKeepsPending(q: Queue, now: nat, cancelled: bool)
    requires PendingIsQueued(q)
    ensures PendingIsQueued(AfterPass(q, now, cancelled))
  {
    hide Key, FirstEligible;
    var i := FirstEligible(q, q.items, now);
    if !cancelled && i < |q.items| { RemovalKeepsPending(q, i, Take(q, i)); }
  }

  /** Every pending key is the key of a queued item, in every reachable state. */
  lemma {:induction false} PendingAlwaysQueued(q: Queue, ops: seq<Op>)
    requires PendingIsQueued(q)
    ensures PendingIsQueued(Run(q, ops))
    decreases |ops|
  {
    if ops != [] {
      StepKeepsPending(q, ops[0]);
      PendingAlwaysQueued(Step(q, ops[0]), ops[1..]);
    }
  }

  ghost predicate DistinctKeys(items: seq<Task>) {
    forall i, j :: 0 <= i < j < |items| && Key(items[i]) != "" ==> Key(items[i]) != Key(items[j])
  }

  /** One entry per file, and pending is exactly the set of queued files. */
  ghost predicate PendingIsExact(q: Queue) {
    && DistinctKeys(q.items)
    && (forall k :: k in q.pending <==> k != "" && HasKey(q.items, k))
  }

  lemma RemovalKeepsExact(q: Queue, i: nat, q': Queue)
    requires PendingIsExact(q) && i < |q.items|
    requires q'.items == RemoveAt(q.items, i) && q'.pending == q.pending - {Key(q.items[i])}
    ensures PendingIsExact(q')
  {
    forall j | 0 <= j < |q'.items| ensures q'.items[j] == q.items[if j < i then j else j + 1] {}
    RemovalKeepsPending(q, i, q');
    forall k | k != "" && HasKey(q'.items, k) ensures k in q'.pending {
      var j :| 0 <= j < |q'.items| && Key(q'.items[j]) == k;
      var j' := if j < i then j else j + 1;
      assert Key(q.items[j']) == k;
    }
  }

  lemma DedupKeepsExact(q: Queue, t: Task)
    requires PendingIsExact(q)
    ensures PendingIsExact(Deduplicated(q, t)) && Key(t) !in Deduplicated(q, t).pending
  {
    hide Key;
    var i := IndexOfKey(q.items, Key(t));
    if Key(t) != "" && Key(t) in q.pending && i < |q.items| {
      RemovalKeepsExact(q, i, Deduplicated(q, t));
    }
  }

  lemma AppendKeepsExact(q: Queue, t: Task, q': Queue)
    requires PendingIsExact(q) && Key(t) !in q.pending && q'.items == q.items + [t]
    requires q'.pending == if Key(t) != "" then q.pending + {Key(t)} else q.pending
    ensures PendingIsExact(q')
  {
    hide Key;
    AppendKeepsPending(q, t, q');
    forall k | k != "" && HasKey(q'.items, k) ensures k in q'.pending {
      var j :| 0 <= j < |q'.items| && Key(q'.items[j]) == k;
      assert j < |q.items| ==> Key(q.items[j]) == k;
    }
    forall a, b | 0 <= a < b < |q'.items| && Key(q'.items[a]) != "" ensures Key(q'.items[a]) != Key(q'.items[b]) {
      assert HasKey(q.items, Key(q.items[a]));
    }
  }

  lemma StepKeepsExact(q: Queue, op: Op)
    requires PendingIsExact(q) && !op.PutFirst?
    ensures PendingIsExact(Step(q, op))
  {
    hide Key, Enqueue, AfterPass, CooldownFor, After, BackoffAfter;
    match op
    case Put(t) => EnqueueKeepsExact(q, t);
    case Get(now, cancelled) => PassKeepsExact(q, now, cancelled);
    case _ =>
  }

  lemma EnqueueKeepsExact(q: Queue, t: Task)
    requires PendingIsExact(q)
    ensures PendingIsExact(Enqueue(q, t))
  {
    hide Key, Deduplicated, DistinctKeys, HasKey;
    if !q.closed {
      DedupKeepsExact(q, t);
      if Accepts(q, t) { AppendKeepsExact(Deduplicated(q, t), t, Enqueue(q, t)); }
    }
  }

  lemma PassKeepsExact(q: Queue, now: nat, cancelled: bool)
    requires PendingIsExact(q)
    ensures PendingIsExact(AfterPass(q, now, cancelled))
  {
    hide Key, FirstEligible;
    var i := FirstEligible(q, q.items, now);
    if !cancelled && i < |q.items| { RemovalKeepsExact(q, i, Take(q, i)); }
  }

  /** Without priority inserts each file is queued at most once and pending is exactly the queued files. */
  lemma {:induction false} PendingExactWithoutPriority(q: Queue, ops: seq<Op>)
    requires PendingIsExact(q) && PriorityInserts(ops) == 0
    ensures PendingIsExact(Run(q, ops))
    decreases |ops|
  {
    if ops != [] {
      StepKeepsExact(q, ops[0]);
      PendingExactWithoutPriority(Step(q, ops[0]), ops[1..]);
    }
  }

  // ----- losing a file

  lemma {:induction false} RunConcat(q: Queue, a: seq<Op>, b: seq<Op>)
    ensures Run(q, a + b) == Run(Run(q, a), b)
    decreases |a|
  {
    hide Step;
    if a == [] {
      assert a + b == b;
    } else {
      assert (a + b)[1..] == a[1..] + b;
      RunConcat(Step(q, a[0]), a[1..], b);
    }
  }

  function PutTimes(t: Task, n: nat): seq<Op> {
    if n == 0 then [] else [Put(t)] + PutTimes(t, n - 1)
  }

  /** Full-project syncs pile up without displacing anything, up to the cap. */
  lemma {:induction false} FullProjectsPileUp(q: Queue, full: Task, n: nat)
    requires !q.closed && full.relPath == "" && |q.items| + n <= HARD_CAP
    ensures var q' := Run(q, PutTimes(full, n));
            && !q'.closed && q'.pending == q.pending && |q'.items| == |q.items| + n && q.items <= q'.items
            && forall i :: |q.items| <= i < |q'.items| ==> q'.items[i] == full
    decreases n
  {
    if n > 0 {
      var q1 := Enqueue(q, full);
      assert Key(full) == "" && q1.items == q.items + [full] && q1.pending == q.pending && !q1.closed;
      hide Enqueue, Key;
      FullProjectsPileUp(q1, full, n - 1);
      assert PutTimes(full, n)[1..] == PutTimes(full, n - 1);
    }
  }

  /** A run that fills the queue around one file, to the cap and one priority delete beyond. */
  function Overfilling(f: Task, full: Task, del: Task): seq<Op> {
    [Put(f)] + PutTimes(full, HARD_CAP - 1) + [PutFirst(del)]
  }

  lemma OverfilledQueue(f: Task, full: Task, del: Task)
    requires f.relPath != "" && full.relPath == ""
    ensures var q := Run(Empty(0), Overfilling(f, full, del));
            && !q.closed && q.pending == {Key(f)} && |q.items| == HARD_CAP + 1 && q.items[..2] == [del, f]
            && forall i :: 2 <= i < |q.items| ==> q.items[i] == full
  {
    var q1 := Enqueue(Empty(0), f);
    assert Key(f) != "" && q1.items == [f] && q1.pending == {Key(f)} && !q1.closed;
    hide Enqueue, Key;
    var filling := PutTimes(full, HARD_CAP - 1);
    FullProjectsPileUp(q1, full, HARD_CAP - 1);
    RunConcat(Empty(0), [Put(f)], filling);
    RunConcat(Empty(0), [Put(f)] + filling, [PutFirst(del)]);
    assert [Put(f)][1..] == [] && [PutFirst(del)][1..] == [];
    hide PutTimes;
  }

  /** A reachable state in which re-enqueueing a queued file loses it: full-project syncs bring the queue
      to its cap, and a priority delete of another file takes it one beyond. */
  lemma OverfullQueueLosesFile(f: Task, full: Task, del: Task)
    requires f.relPath != "" && full.relPath == "" && Key(del) != Key(f)
    ensures var q := Run(Empty(0), Overfilling(f, full, del));
            var q' := Step(q, Put(f));
            && Displaced(q, f) == [f] && !Accepts(q, f)
            && HasKey(q.items, Key(f)) && !HasKey(q'.items, Key(f)) && Key(f) !in q'.pending
  {
    OverfilledQueue(f, full, del);
    var q := Run(Empty(0), Overfilling(f, full, del));
    assert Key(f) != "" && Key(full) == "";
    hide Key, Run, Overfilling;
    assert q.items[0] == q.items[..2][0] && q.items[1] == q.items[..2][1];
    assert IndexOfKey(q.items, Key(f)) == 1;
    hide IndexOfKey;
    var rest := RemoveAt(q.items, 1);
    assert forall i :: 1 <= i < |rest| ==> rest[i] == q.items[i + 1];
  }

  // ----- deletes

  /** The first queued item with the key is a delete. */
  ghost predicate DeleteComesFirst(items: seq<Task>, key: string) {
    exists i :: 0 <= i < |items| && items[i].kind == TaskDelete && Key(items[i]) == key
                && forall j :: 0 <= j < i ==> Key(items[j]) != key
  }

  lemma FirstOfKey(items: seq<Task>, key: string)
    ensures var i := IndexOfKey(items, key);
            DeleteComesFirst(items, key) <==> i < |items| && items[i].kind == TaskDelete
  {
    hide Key;
    var i := IndexOfKey(items, key);
    if DeleteComesFirst(items, key) {
      var j :| 0 <= j < |items| && items[j].kind == TaskDelete && Key(items[j]) == key
               && forall k :: 0 <= k < j ==> Key(items[k]) != key;
      assert i == j;
    }
  }

  /** The guard under which an Enqueue throws out a delete, although "each delete must execute": the file
      counts as pending, and of what is queued for it a delete comes first. */
  ghost predicate WouldDropDelete(q: Queue, op: Op) {
    op.Put? && !q.closed && Key(op.task) != "" && Key(op.task) in q.pending && DeleteComesFirst(q.items, Key(op.task))
  }

  ghost predicate NoDeleteIn(ts: seq<Task>) {
    forall d :: d in ts ==> d.kind != TaskDelete
  }

  lemma DropsDeleteIff(q: Queue, op: Op)
    ensures WouldDropDelete(q, op) <==> !NoDeleteIn(StepLedger(q, op).displaced)
  {
    hide Key, IndexOfKey, Pass, DeleteComesFirst;
    if op.Put? {
      FirstOfKey(q.items, Key(op.task));
      var i := IndexOfKey(q.items, Key(op.task));
      assert i < |q.items| ==> q.items[i] in [q.items[i]];
    }
  }

  ghost predicate NeverWouldDropDelete(q: Queue, ops: seq<Op>)
    decreases |ops|
  {
    ops == [] || (!WouldDropDelete(q, ops[0]) && NeverWouldDropDelete(Step(q, ops[0]), ops[1..]))
  }

  /** Exactly when no delete is dropped in a run: when nothing is enqueued under the guard. */
  lemma {:induction false} DeletesDroppedIff(q: Queue, ops: seq<Op>)
    ensures NeverWouldDropDelete(q, ops) <==> NoDeleteIn(RunLedger(q, ops).displaced)
    decreases |ops|
  {
    hide Step, StepLedger, WouldDropDelete;
    if ops != [] {
      DropsDeleteIff(q, ops[0]);
      DeletesDroppedIff(Step(q, ops[0]), ops[1..]);
      var now, later := StepLedger(q, ops[0]).displaced, RunLedger(Step(q, ops[0]), ops[1..]).displaced;
      assert RunLedger(q, ops).displaced == now + later;
      assert forall d :: d in now + later <==> d in now || d in later;
    }
  }

  /** In such a run every delete that was accepted is still queued or was handed out. */
  lemma AcceptedDeletesExecute(q: Queue, ops: seq<Op>, d: Task)
    requires NeverWouldDropDelete(q, ops) && d.kind == TaskDelete
    ensures Count(q.items, d) + Count(RunLedger(q, ops).accepted, d)
            == Count(Run(q, ops).items, d) + Count(RunLedger(q, ops).handedOut, d)
  {
    hide Run, RunLedger, NeverWouldDropDelete;
    DeletesDroppedIff(q, ops);
    Conservation(q, ops);
    assert d !in RunLedger(q, ops).displaced;
  }

  /** How the program's own callers use the queue: syncs at the back, deletes at the front. */
  ghost predicate Disciplined(op: Op) {
    && (op.Put? ==> op.task.kind == TaskSync)
    && (op.PutFirst? ==> op.task.kind == TaskDelete)
  }

  ghost predicate DeletesFirst(items: seq<Task>) {
    forall i, j :: 0 <= i < j < |items| && items[j].kind == TaskDelete ==> items[i].kind == TaskDelete
  }

  ghost predicate DeleteQueued(items: seq<Task>, key: string) {
    exists i :: 0 <= i < |items| && items[i].kind == TaskDelete && Key(items[i]) == key
  }

  lemma RemovalKeepsDeletesFirst(items: seq<Task>, i: nat)
    requires DeletesFirst(items) && i < |items|
    ensures DeletesFirst(RemoveAt(items, i))
  {
    var rest := RemoveAt(items, i);
    forall a, b | 0 <= a < b < |rest| && rest[b].kind == TaskDelete ensures rest[a].kind == TaskDelete {
      assert rest[a] == items[if a < i then a else a + 1] && rest[b] == items[if b < i then b else b + 1];
    }
  }

  lemma StepKeepsDeletesFirst(q: Queue, op: Op)
    requires DeletesFirst(q.items) && Disciplined(op)
    ensures DeletesFirst(Step(q, op).items)
  {
    hide Key, Eligible, IndexOfKey, FirstEligible;
    match op
    case Put(t) =>
      var i := IndexOfKey(q.items, Key(t));
      if i < |q.items| { RemovalKeepsDeletesFirst(q.items, i); }
      if !q.closed { EnqueueItems(q, t); }
      assert DeletesFirst(Deduplicated(q, t).items);
      hide Deduplicated, Enqueue;
    case Get(now, cancelled) =>
      var i := FirstEligible(q, q.items, now);
      if i < |q.items| { RemovalKeepsDeletesFirst(q.items, i); }
    case _ =>
  }

  lemma {:induction false} RunKeepsDeletesFirst(q: Queue, ops: seq<Op>)
    requires DeletesFirst(q.items) && forall op :: op in ops ==> Disciplined(op)
    ensures DeletesFirst(Run(q, ops).items)
    decreases |ops|
  {
    hide Step, DeletesFirst, Disciplined;
    if ops != [] {
      StepKeepsDeletesFirst(q, ops[0]);
      RunKeepsDeletesFirst(Step(q, ops[0]), ops[1..]);
    }
  }

  /** At every moment of a run by such callers, the guard is that the file counts as pending and a delete
      of it is queued anywhere. */
  lemma CallersDropDeleteIff(q: Queue, ops: seq<Op>, op: Op)
    requires DeletesFirst(q.items) && forall o :: o in ops ==> Disciplined(o)
    ensures var now := Run(q, ops);
            WouldDropDelete(now, op)
            <==> op.Put? && !now.closed && Key(op.task) != "" && Key(op.task) in now.pending
                 && DeleteQueued(now.items, Key(op.task))
  {
    RunKeepsDeletesFirst(q, ops);
    hide Key, Run, Disciplined;
    if op.Put? { FirstOfKey(Run(q, ops).items, Key(op.task)); }
  }

  /** A run that drops a delete: sync, delete and sync again of one file. */
  lemma ResyncDropsDelete()
    ensures var sync := Task("m", "f", TaskSync, false, None);
            var del := Task("m", "f", TaskDelete, false, None);
            RunLedger(Empty(0), [Put(sync), PutFirst(del), Put(sync)]).displaced == [del]
  {
    var sync := Task("m", "f", TaskSync, false, None);
    var del := Task("m", "f", TaskDelete, false, None);
    var ops := [Put(sync), PutFirst(del), Put(sync)];
    var q1 := Step(Empty(0), ops[0]);
    assert q1.items == [sync] && q1.pending == {Key(sync)};
    var q2 := Step(q1, ops[1]);
    assert q2.items == [del, sync];
    assert Key(del) == Key(sync) == "m:f";
    assert StepLedger(q2, ops[2]).displaced == [del];
    assert ops[1..][1..] == [Put(sync)];
    assert RunLedger(Step(q2, ops[2]), []).displaced == [];
    assert RunLedger(q2, [Put(sync)]).displaced == [del];
    assert RunLedger(q1, ops[1..]).displaced == [del];
  }

  // ----- re-enqueueing moves a file to the back, or queues it twice

  ghost predicate SyncQueued(items: seq<Task>, key: string) {
    exists i :: 0 <= i < |items| && items[i].kind == TaskSync && Key(items[i]) == key
  }

  predicate SameFileSyncs(t: Task, u: Task) {
    t.kind == TaskSync && u.kind == TaskSync && Key(t) != "" && Key(t) == Key(u)
  }

  ghost predicate OneSyncPerFile(items: seq<Task>) {
    forall i, j :: 0 <= i < j < |items| ==> !SameFileSyncs(items[i], items[j])
  }

  /** The guard under which a second sync of a queued file comes in beside the first: by priority; or when
      handing out a delete has cleared the pending mark of a file whose sync is still queued; or when a
      delete is displaced in the sync's place. */
  ghost predicate WouldQueueTwice(q: Queue, op: Op) {
    && (op.Put? || op.PutFirst?) && !q.closed && op.task.kind == TaskSync
    && Key(op.task) != "" && SyncQueued(q.items, Key(op.task))
    && (op.Put? ==> if Key(op.task) in q.pending then DeleteComesFirst(q.items, Key(op.task)) && |q.items| <= HARD_CAP
                    else |q.items| < HARD_CAP)
  }

  lemma RemovalKeepsOneSync(items: seq<Task>, i: nat)
    requires OneSyncPerFile(items) && i < |items|
    ensures OneSyncPerFile(RemoveAt(items, i))
    ensures Key(items[i]) != "" ==>
              (SyncQueued(RemoveAt(items, i), Key(items[i]))
               <==> SyncQueued(items, Key(items[i])) && items[i].kind == TaskDelete)
  {
    hide Key;
    var rest, key := RemoveAt(items, i), Key(items[i]);
    forall j | 0 <= j < |rest| ensures rest[j] == items[if j < i then j else j + 1] {}
    if items[i].kind == TaskDelete && SyncQueued(items, key) {
      var j :| 0 <= j < |items| && items[j].kind == TaskSync && Key(items[j]) == key;
      assert rest[if j < i then j else j - 1] == items[j];
    }
  }

  /** One more item, at either end, is a second sync exactly if a sync of its file is queued. */
  lemma OneMoreSync(items: seq<Task>, t: Task, more: seq<Task>)
    requires OneSyncPerFile(items) && (more == items + [t] || more == [t] + items)
    ensures OneSyncPerFile(more) <==> t.kind == TaskDelete || Key(t) == "" || !SyncQueued(items, Key(t))
  {
    hide Key;
    var shift := if more == items + [t] then 0 else 1;
    var at := if shift == 0 then |items| else 0;
    assert more[at] == t && forall i :: 0 <= i < |items| ==> more[i + shift] == items[i];
    if t.kind == TaskSync && Key(t) != "" && SyncQueued(items, Key(t)) {
      var i :| 0 <= i < |items| && items[i].kind == TaskSync && Key(items[i]) == Key(t);
      assert SameFileSyncs(more[i + shift], more[at]);
    } else {
      forall a, b | 0 <= a < b < |more| ensures !SameFileSyncs(more[a], more[b]) {
        assert a == at || more[a] == items[a - shift];
        assert b == at || more[b] == items[b - shift];
      }
    }
  }

  /** What displacing the old entry leaves of the file's syncs. */
  lemma DedupKeepsOneSync(q: Queue, t: Task)
    requires OneSyncPerFile(q.items)
    ensures OneSyncPerFile(Deduplicated(q, t).items)
    ensures Key(t) != "" ==>
              (SyncQueued(Deduplicated(q, t).items, Key(t))
               <==> SyncQueued(q.items, Key(t)) && (Key(t) !in q.pending || DeleteComesFirst(q.items, Key(t))))
  {
    FirstOfKey(q.items, Key(t));
    hide Key, DeleteComesFirst;
    var i := IndexOfKey(q.items, Key(t));
    if i < |q.items| { RemovalKeepsOneSync(q.items, i); }
  }

  lemma PutQueuesTwiceIff(q: Queue, t: Task)
    requires OneSyncPerFile(q.items)
    ensures OneSyncPerFile(Enqueue(q, t).items) <==> !WouldQueueTwice(q, Put(t))
  {
    if !q.closed {
      DedupKeepsOneSync(q, t);
      EnqueueItems(q, t);
      OneMoreSync(Deduplicated(q, t).items, t, Deduplicated(q, t).items + [t]);
      DedupLength(q, t);
      hide Key, Enqueue, SyncQueued, Deduplicated, DeleteComesFirst, OneSyncPerFile;
      var items := Deduplicated(q, t).items;
      assert StepLedger(q, Put(t)).accepted == if Accepts(q, t) then [t] else [];
      assert items + [] == items;
    }
  }

  lemma DedupLength(q: Queue, t: Task)
    ensures Key(t) != "" && SyncQueued(q.items, Key(t)) ==>
              |Deduplicated(q, t).items| == if Key(t) in q.pending then |q.items| - 1 else |q.items|
  {
  }

  lemma QueuesTwiceIff(q: Queue, op: Op)
    requires OneSyncPerFile(q.items)
    ensures OneSyncPerFile(Step(q, op).items) <==> !WouldQueueTwice(q, op)
  {
    match op
    case Put(t) => PutQueuesTwiceIff(q, t);
    case PutFirst(t) => OneMoreSync(q.items, t, [t] + q.items);
    case Get(now, cancelled) =>
      hide Key, Eligible, FirstEligible;
      var i := FirstEligible(q, q.items, now);
      if i < |q.items| { RemovalKeepsOneSync(q.items, i); }
    case _ =>
  }

  ghost predicate NeverWouldQueueTwice(q: Queue, ops: seq<Op>)
    decreases |ops|
  {
    ops == [] || (!WouldQueueTwice(q, ops[0]) && NeverWouldQueueTwice(Step(q, ops[0]), ops[1..]))
  }

  /** No state of the run has two queued syncs of one file. */
  ghost predicate AlwaysOneSync(q: Queue, ops: seq<Op>)
    decreases |ops|
  {
    OneSyncPerFile(q.items) && (ops == [] || AlwaysOneSync(Step(q, ops[0]), ops[1..]))
  }

  /** Exactly when every file has at most one queued sync throughout a run: when none is enqueued under the
      guard. */
  lemma {:induction false} QueuedTwiceIff(q: Queue, ops: seq<Op>)
    requires OneSyncPerFile(q.items)
    ensures AlwaysOneSync(q, ops) <==> NeverWouldQueueTwice(q, ops)
    decreases |ops|
  {
    hide Step, WouldQueueTwice, OneSyncPerFile;
    if ops != [] {
      QueuesTwiceIff(q, ops[0]);
      if !WouldQueueTwice(q, ops[0]) { QueuedTwiceIff(Step(q, ops[0]), ops[1..]); }
    }
  }

  /** A run that queues a file twice: its delete is handed out between two syncs. */
  lemma DeleteLetsSyncInTwice()
    ensures var sync := Task("m", "f", TaskSync, false, None);
            var del := Task("m", "f", TaskDelete, false, None);
            Run(Empty(0), [Put(sync), PutFirst(del), Get(0, false), Put(sync)]).items == [sync, sync]
  {
    var sync := Task("m", "f", TaskSync, false, None);
    var del := Task("m", "f", TaskDelete, false, None);
    var ops := [Put(sync), PutFirst(del), Get(0, false), Put(sync)];
    assert Key(del) == Key(sync) == "m:f";
    var q1 := Step(Empty(0), ops[0]);
    assert q1.items == [sync] && q1.pending == {"m:f"};
    var q2 := Step(q1, ops[1]);
    assert q2.items == [del, sync];
    var q3 := Step(q2, ops[2]);
    assert FirstEligible(q2, q2.items, 0) == 0;
    assert q3.items == [sync] && q3.pending == {};
    var q4 := Step(q3, ops[3]);
    assert q4.items == [sync, sync];
    assert ops[1..][1..][1..] == [Put(sync)] && [Put(sync)][1..] == [];
    hide Step;
    assert Run(q3, [Put(sync)]) == q4;
    assert Run(q2, ops[1..][1..]) == q4;
  }
}
