/** State of the scheduler's task queue and the effect of each of its locked sections
    (internal/sync/fairqueue.go). Times are nanoseconds since the zero time.Time, so the zero value
    is 0 and a clock reading is a natural number. */
module FairQueueSpec {
  import opened Backoff
  import opened Wrappers

  type Time = int

  const HARD_CAP: nat := 100_000
  const OVERFLOW_DEPTH: nat := 50_000
  const DRAINED_DEPTH: nat := 25_000

  const SECOND: int := 1_000_000_000

  const COOLDOWN_BASE: int := 5_000_000_000
  const COOLDOWN_MAX: int := 120_000_000_000
  const FREQUENCY_WINDOW: int := 60_000_000_000
  const MAX_FREQUENCY: nat := 10

  datatype TaskType = TaskSync | TaskDelete

  /** done names the completion callback, if the task carries one. */
  datatype Task = Task(mirror: string, relPath: string, kind: TaskType, forceDelete: bool, done: Option<nat>)

  datatype Circuit = Circuit(consecutiveFailures: nat, backoffUntil: Time)

  /** doneFired lists the callbacks started for displaced tasks, overflowSignals counts the overflow
      warnings, both since the queue was made. */
  datatype Queue = Queue(items: seq<Task>,
                         pending: set<string>,
                         cooldowns: map<string, Time>,
                         circuits: map<string, Circuit>,
                         eventHistory: map<string, seq<Time>>,
                         cooldownDur: int,
                         closed: bool,
                         overflowFired: bool,
                         doneFired: seq<nat>,
                         overflowSignals: nat)

  function Empty(cooldownDur: int): Queue {
    Queue([], {}, map[], map[], map[], cooldownDur, false, false, [], 0)
  }

  function Key(t: Task): string {
    if t.relPath == "" then "" else t.mirror + ":" + t.relPath
  }

  function RemoveAt<T>(s: seq<T>, i: nat): seq<T>
    requires i < |s|
  {
    s[..i] + s[i + 1..]
  }

  // ----- Enqueue and EnqueuePriority

  /** The position of the first item with the key, or the length if there is none. */
  function IndexOfKey(items: seq<Task>, key: string): (i: nat)
    ensures i <= |items|
    ensures i < |items| ==> Key(items[i]) == key
    ensures forall j :: 0 <= j < i ==> Key(items[j]) != key
  {
    if items == [] || Key(items[0]) == key then 0 else 1 + IndexOfKey(items[1..], key)
  }

  function DoneOf(t: Task): seq<nat> {
    if t.done.Some? then [t.done.value] else []
  }

  function RemoveByKey(q: Queue, key: string): Queue {
    var i := IndexOfKey(q.items, key);
    if i == |q.items| then q
    else q.(items := RemoveAt(q.items, i),
            pending := q.pending - {key},
            doneFired := q.doneFired + DoneOf(q.items[i]))
  }

  /** The queue after the duplicate, if any, has left it. */
  function Deduplicated(q: Queue, t: Task): Queue {
    if Key(t) != "" && Key(t) in q.pending then RemoveByKey(q, Key(t)) else q
  }

  /** The item that an Enqueue of t throws out: none or one. */
  function Displaced(q: Queue, t: Task): (d: seq<Task>) {
    if !q.closed && Key(t) != "" && Key(t) in q.pending && IndexOfKey(q.items, Key(t)) < |q.items|
    then [q.items[IndexOfKey(q.items, Key(t))]] else []
  }

  predicate Accepts(q: Queue, t: Task) {
    !q.closed && |Deduplicated(q, t).items| < HARD_CAP
  }

  function WatchDepth(q: Queue): Queue {
    if |q.items| >= OVERFLOW_DEPTH && !q.overflowFired then
      q.(overflowFired := true, overflowSignals := q.overflowSignals + 1)
    else if |q.items| < DRAINED_DEPTH && q.overflowFired then
      q.(overflowFired := false)
    else q
  }

  function Enqueue(q: Queue, t: Task): Queue {
    if q.closed then q
    else if !Accepts(q, t) then Deduplicated(q, t)
    else
      var q1 := Deduplicated(q, t);
      var q2 := q1.(items := q1.items + [t],
                    pending := if Key(t) != "" then q1.pending + {Key(t)} else q1.pending);
      WatchDepth(q2)
  }

  function EnqueuePriority(q: Queue, t: Task): Queue {
    if q.closed then q else q.(items := [t] + q.items)
  }

  // ----- cooldowns

  function SetCooldown(q: Queue, key: string, now: nat): Queue {
    if key == "" || q.cooldownDur <= 0 then q
    else q.(cooldowns := q.cooldowns[key := now + q.cooldownDur])
  }

  /** The event times later than the cutoff, in order. */
  function After(history: seq<Time>, cutoff: Time): (r: seq<Time>)
    ensures |r| <= |history|
  {
    if history == [] then []
    else After(history[..|history| - 1], cutoff) +
         if history[|history| - 1] > cutoff then [history[|history| - 1]] else []
  }

  function Min(a: int, b: int): int { if a <= b then a else b }

  function Max(a: int, b: int): int { if a >= b then a else b }

  /** Go's integer conversion of 1.5 * d: truncation toward zero. */
  function OneAndAHalf(d: int): int {
    if d >= 0 then d * 3 / 2 else -(-d * 3 / 2)
  }

  function CooldownFor(events: nat, syncDuration: int): int {
    Min(COOLDOWN_MAX, Max(COOLDOWN_BASE * Min(events, MAX_FREQUENCY), OneAndAHalf(syncDuration)))
  }

  function History(q: Queue, key: string): seq<Time> {
    if key in q.eventHistory then q.eventHistory[key] else []
  }

  function SetAdaptiveCooldown(q: Queue, key: string, syncDuration: int, now: nat): Queue {
    if key == "" then q
    else
      var events := After(History(q, key), now - FREQUENCY_WINDOW) + [now];
      q.(eventHistory := q.eventHistory[key := events],
         cooldowns := q.cooldowns[key := now + CooldownFor(|events|, syncDuration)])
  }

  // ----- the circuit breaker

  function Failures(q: Queue, mirror: string): nat {
    if mirror in q.circuits then q.circuits[mirror].consecutiveFailures else 0
  }

  function BackoffUntil(q: Queue, mirror: string): Time {
    if mirror in q.circuits then q.circuits[mirror].backoffUntil else 0
  }

  function RecordFailure(q: Queue, mirror: string, now: nat): Queue {
    var n := Failures(q, mirror) + 1;
    var until := if n >= BREAKER_THRESHOLD then now + BackoffAfter(n) else BackoffUntil(q, mirror);
    q.(circuits := q.circuits[mirror := Circuit(n, until)])
  }

  predicate Trips(q: Queue, mirror: string) {
    Failures(q, mirror) + 1 == BREAKER_THRESHOLD
  }

  function RecordSuccess(q: Queue, mirror: string): Queue {
    if mirror in q.circuits then q.(circuits := q.circuits[mirror := Circuit(0, 0)]) else q
  }

  // ----- Dequeue: one pass over the items under the lock

  predicate MirrorPaused(q: Queue, mirror: string, now: Time) {
    mirror in q.circuits && q.circuits[mirror].backoffUntil > now
  }

  predicate Cooling(q: Queue, key: string, now: Time) {
    key in q.cooldowns && q.cooldowns[key] > now
  }

  /** Deletes skip the breaker and the cooldown, full-project syncs skip the cooldown. */
  predicate Eligible(q: Queue, t: Task, now: Time) {
    t.kind == TaskDelete
    || (!MirrorPaused(q, t.mirror, now) && (Key(t) == "" || !Cooling(q, Key(t), now)))
  }

  /** The time that the scan notes for an item it skips. */
  function Blocker(q: Queue, t: Task, now: Time): (e: Time)
    requires !Eligible(q, t, now)
    ensures e > now
  {
    if MirrorPaused(q, t.mirror, now) then q.circuits[t.mirror].backoffUntil else q.cooldowns[Key(t)]
  }

  function FirstEligible(q: Queue, items: seq<Task>, now: Time): (i: nat)
    ensures i <= |items|
    ensures i < |items| ==> Eligible(q, items[i], now)
    ensures forall j :: 0 <= j < i ==> !Eligible(q, items[j], now)
  {
    if items == [] || Eligible(q, items[0], now) then 0 else 1 + FirstEligible(q, items[1..], now)
  }

  /** The earliest of the noted times. */
  function EarliestExpiry(q: Queue, items: seq<Task>, now: Time): (e: Time)
    requires items != []
    requires forall t :: t in items ==> !Eligible(q, t, now)
    ensures exists t :: t in items && Blocker(q, t, now) == e
    ensures forall t :: t in items ==> e <= Blocker(q, t, now)
  {
    var last := items[|items| - 1];
    if |items| == 1 then Blocker(q, last, now)
    else Min(EarliestExpiry(q, items[..|items| - 1], now), Blocker(q, last, now))
  }

  /** Finished is the (Task{}, false) return; the other two say what the loop waits for. */
  datatype PassResult = Taken(task: Task) | Finished | WaitUntil(time: Time) | WaitForSignal

  function Take(q: Queue, i: nat): Queue
    requires i < |q.items|
  {
    var t := q.items[i];
    var q1 := q.(items := RemoveAt(q.items, i));
    if Key(t) == "" then q1
    else if t.kind == TaskDelete then q1.(pending := q.pending - {Key(t)})
    else q1.(pending := q.pending - {Key(t)}, cooldowns := q.cooldowns - {Key(t)})
  }

  function Pass(q: Queue, now: nat, cancelled: bool): PassResult {
    var i := FirstEligible(q, q.items, now);
    if cancelled then Finished
    else if i < |q.items| then Taken(q.items[i])
    else if q.items != [] then WaitUntil(EarliestExpiry(q, q.items, now))
    else if q.closed then Finished
    else WaitForSignal
  }

  function AfterPass(q: Queue, now: nat, cancelled: bool): Queue {
    var i := FirstEligible(q, q.items, now);
    if !cancelled && i < |q.items| then Take(q, i) else q
  }

  /** One turn of the scan, at item i, when everything before it was skipped. */
  lemma ScanStep(q: Queue, i: nat, now: nat)
    requires i < |q.items|
    requires forall t :: t in q.items[..i] ==> !Eligible(q, t, now)
    ensures Eligible(q, q.items[i], now) ==> FirstEligible(q, q.items, now) == i
    ensures !Eligible(q, q.items[i], now) ==>
              && (forall t :: t in q.items[..i + 1] ==> !Eligible(q, t, now))
              && EarliestExpiry(q, q.items[..i + 1], now)
                 == (if i == 0 then Blocker(q, q.items[i], now)
                     else Min(EarliestExpiry(q, q.items[..i], now), Blocker(q, q.items[i], now)))
              && EarliestExpiry(q, q.items[..i + 1], now) > now
  {
    assert forall j :: 0 <= j < i ==> q.items[j] in q.items[..i];
    if !Eligible(q, q.items[i], now) {
      assert q.items[..i + 1] == q.items[..i] + [q.items[i]];
      assert q.items[..i + 1][..i] == q.items[..i];
    }
  }

  lemma NothingFound(q: Queue, now: nat)
    requires forall t :: t in q.items ==> !Eligible(q, t, now)
    ensures FirstEligible(q, q.items, now) == |q.items|
  {
    assert forall j :: 0 <= j < |q.items| ==> q.items[j] in q.items;
  }

  // ----- what a single step promises

  /** A pass hands out the first eligible item and keeps the order of the rest; it hands out nothing
      exactly when the caller gave up or nothing is eligible. */
  lemma PassTakesFirstEligible(q: Queue, now: nat, cancelled: bool)
    ensures Pass(q, now, cancelled).Taken? <==> !cancelled && exists t :: t in q.items && Eligible(q, t, now)
    ensures Pass(q, now, cancelled).Taken? ==>
              exists i :: 0 <= i < |q.items|
                          && Pass(q, now, cancelled).task == q.items[i] && Eligible(q, q.items[i], now)
                          && (forall j :: 0 <= j < i ==> !Eligible(q, q.items[j], now))
                          && AfterPass(q, now, cancelled).items == q.items[..i] + q.items[i + 1..]
    ensures !Pass(q, now, cancelled).Taken? ==> AfterPass(q, now, cancelled) == q
  {
    var i := FirstEligible(q, q.items, now);
    if i < |q.items| { assert q.items[i] in q.items; }
  }

  /** A wait is worth its while: it ends later than now, and as long as breakers and cooldowns stay as
      they are, nothing in the queue could be handed out earlier than its end. */
  lemma NothingEligibleBeforeExpiry(q: Queue, now: nat, t: Time, item: Task)
    requires Pass(q, now, false).WaitUntil?
    requires now <= t < Pass(q, now, false).time && item in q.items
    ensures now < Pass(q, now, false).time
    ensures !Eligible(q, item, t)
  {
    assert !Eligible(q, item, now);
    assert t < Blocker(q, item, now);
  }

  /** An Enqueue loses the file when the queue is over the cap: the old entry is thrown out and the
      new one refused. That takes priority inserts, since only they can pass the cap. */
  lemma EnqueueLosesFileIff(q: Queue, t: Task)
    requires !q.closed && (forall k :: k in q.pending ==> IndexOfKey(q.items, k) < |q.items|)
    ensures Displaced(q, t) != [] && !Accepts(q, t)
            <==> Key(t) != "" && Key(t) in q.pending && |q.items| > 100_000
  {
  }

  /** The cooldown set after a sync lies between the base and the maximum, grows with the number of
      recent events, and covers one and a half times the sync unless the maximum is lower. */
  lemma AdaptiveCooldownBounds(q: Queue, key: string, d: int, now: nat)
    requires key != ""
    ensures var q' := SetAdaptiveCooldown(q, key, d, now);
            var c := q'.cooldowns[key] - now;
            && 5 * SECOND <= c <= 120 * SECOND
            && (c < 120 * SECOND ==> 2 * c >= 3 * d - 1)
            && (c < 120 * SECOND ==> c >= 5 * SECOND * Min(|q'.eventHistory[key]|, 10))
            && (c == 5 * SECOND * Min(|q'.eventHistory[key]|, 10)
                || 3 * d - 1 <= 2 * c <= 3 * d || c == 120 * SECOND)
  {
  }

  /** A recorded event time counts as long as it is younger than the window, and no longer. */
  lemma {:induction false} AfterKeepsExactly(history: seq<Time>, cutoff: Time)
    ensures multiset(After(history, cutoff)) <= multiset(history)
    ensures forall t :: multiset(After(history, cutoff))[t] == if t > cutoff then multiset(history)[t] else 0
  {
    if history != [] {
      AfterKeepsExactly(history[..|history| - 1], cutoff);
      assert history == history[..|history| - 1] + [history[|history| - 1]];
    }
  }

  /** t's path takes up what u's mirror name has beyond t's mirror name and a colon. */
  predicate Confuses(t: Task, u: Task) {
    t.mirror + ":" <= u.mirror && t.relPath == u.mirror[|t.mirror| + 1..] + ":" + u.relPath
  }

  lemma KeyBeginsWith(t: Task, u: Task)
    requires t.relPath != "" && u.relPath != "" && Key(t) == Key(u)
    requires |t.mirror| < |u.mirror|
    ensures Confuses(t, u)
  {
    var k, n, m := Key(t), |t.mirror|, |u.mirror|;
    assert t.mirror + ":" == k[..n + 1] == u.mirror[..n + 1];
    assert t.relPath == k[n + 1..] == u.mirror[n + 1..] + ":" + u.relPath;
  }

  /** Exactly which per-file tasks share a key: those that name the same file, and those where the colon
      that ends one mirror's name in the key stands inside the other's name. */
  lemma SharedKeyIff(t: Task, u: Task)
    requires t.relPath != "" && u.relPath != ""
    ensures Key(t) == Key(u) <==> (t.mirror == u.mirror && t.relPath == u.relPath) || Confuses(t, u) || Confuses(u, t)
  {
    if Key(t) == Key(u) {
      if |t.mirror| < |u.mirror| {
        KeyBeginsWith(t, u);
      } else if |u.mirror| < |t.mirror| {
        KeyBeginsWith(u, t);
      } else {
        var n := |t.mirror|;
        assert t.mirror == Key(t)[..n] == u.mirror && t.relPath == Key(t)[n + 1..] == u.relPath;
      }
    } else {
      if Confuses(t, u) { ConfusedKeys(t, u); }
      if Confuses(u, t) { ConfusedKeys(u, t); }
    }
  }

  lemma ConfusedKeys(t: Task, u: Task)
    requires t.relPath != "" && u.relPath != "" && Confuses(t, u)
    ensures Key(t) == Key(u)
    ensures ':' in u.mirror && ':' in t.relPath
  {
    var n := |t.mirror|;
    assert u.mirror == (t.mirror + ":") + u.mirror[n + 1..];
    assert u.mirror[n] == ':' && t.relPath[|u.mirror| - n - 1] == ':';
  }

  /** The key identifies the file, unless one mirror's name and the other mirror's path both have a colon.
      So it does whatever the mirror names, if no path has a colon, as on Windows. */
  lemma KeysIdentifyFiles(t: Task, u: Task)
    requires t.relPath != "" && u.relPath != ""
    requires (':' !in t.mirror || ':' !in u.relPath) && (':' !in u.mirror || ':' !in t.relPath)
    ensures Key(t) == Key(u) <==> t.mirror == u.mirror && t.relPath == u.relPath
  {
    SharedKeyIff(t, u);
    if Confuses(t, u) { ConfusedKeys(t, u); }
    if Confuses(u, t) { ConfusedKeys(u, t); }
  }

  /** Some file of the one mirror has the key of some file of the other. */
  ghost predicate MirrorsShareKeys(m: string, n: string) {
    exists t: Task, u: Task ::
      t.mirror == m && u.mirror == n && t.relPath != "" && u.relPath != "" && Key(t) == Key(u)
  }

  /** Two mirrors can share keys exactly when one's name is the other's followed by a colon, and possibly
      more. */
  lemma MirrorsShareKeysIff(m: string, n: string)
    requires m != n
    ensures MirrorsShareKeys(m, n) <==> m + ":" <= n || n + ":" <= m
  {
    if MirrorsShareKeys(m, n) {
      var t: Task, u: Task :|
        t.mirror == m && u.mirror == n && t.relPath != "" && u.relPath != "" && Key(t) == Key(u);
      SharedKeyIff(t, u);
    }
    if m + ":" <= n {
      var t, u := ConfusedPair(m, n);
    }
    if n + ":" <= m {
      var u, t := ConfusedPair(n, m);
    }
  }

  lemma ConfusedPair(m: string, n: string) returns (t: Task, u: Task)
    requires m + ":" <= n
    ensures t.mirror == m && u.mirror == n && t.relPath != "" && u.relPath != "" && Key(t) == Key(u)
  {
    t := Task(m, n[|m| + 1..] + ":" + "f", TaskSync, false, None);
    u := Task(n, "f", TaskSync, false, None);
    ConfusedKeys(t, u);
  }

  /** Then one mirror's task displaces the other's; it takes a path with a colon. */
  lemma ColonInMirrorNameCollides()
    ensures var t := Task("a:b", "c", TaskSync, false, None);
            var u := Task("a", "b:c", TaskSync, false, None);
            Key(t) == Key(u) && Displaced(Enqueue(Empty(0), t), u) == [t]
  {
    var t := Task("a:b", "c", TaskSync, false, None);
    var u := Task("a", "b:c", TaskSync, false, None);
    assert Key(t) == "a:b:c" == Key(u);
    var q := Enqueue(Empty(0), t);
    assert q.items == [t] && Key(u) in q.pending;
    assert IndexOfKey(q.items, Key(u)) == 0;
  }
}
