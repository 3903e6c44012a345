/** The task queue as the program keeps it: one object whose methods, each holding the lock, update the
    item list and the maps in place (internal/sync/fairqueue.go). Every method is proved against the
    effect that FairQueueSpec gives it; FairQueueRuns proves what that means over whole runs. */
module FairQueueObject {
  import opened Backoff
  import S = FairQueueSpec

  class FairQueue {
    var items: seq<S.Task>
    var pending: set<string>
    var cooldowns: map<string, S.Time>
    var circuits: map<string, S.Circuit>
    var eventHistory: map<string, seq<S.Time>>
    var cooldownDur: int
    var closed: bool
    const maxSize: int  // kept, never read
    var overflowFired: bool
    var doneFired: seq<nat>
    var overflowSignals: nat

    ghost function View(): S.Queue
      reads this
    {
      S.Queue(items, pending, cooldowns, circuits, eventHistory, cooldownDur, closed, overflowFired,
              doneFired, overflowSignals)
    }

    constructor (maxSize: int, cooldownDur: int)
      ensures View() == S.Empty(cooldownDur)
    {
      this.maxSize := maxSize;
      this.cooldownDur := cooldownDur;
      items, pending, cooldowns, circuits, eventHistory := [], {}, map[], map[], map[];
      closed, overflowFired, doneFired, overflowSignals := false, false, [], 0;
    }

    method RemoveByKey(key: string)
      modifies this
      ensures View() == S.RemoveByKey(old(View()), key)
    {
      for i := 0 to |items|
        invariant View() == old(View())
        invariant forall j :: 0 <= j < i ==> S.Key(items[j]) != key
      {
        if S.Key(items[i]) == key {
          assert S.IndexOfKey(items, key) == i;
          var displaced := items[i];
          items := items[..i] + items[i + 1..];
          pending := pending - {key};
          if displaced.done.Some? {
            doneFired := doneFired + [displaced.done.value];
          }
          assert doneFired == old(doneFired) + S.DoneOf(displaced);
          return;
        }
      }
      assert S.IndexOfKey(items, key) == |items|;
    }

    method Enqueue(task: S.Task)
      modifies this
      ensures View() == S.Enqueue(old(View()), task)
    {
      if closed {
        return;
      }
      var key := S.Key(task);
      if key != "" && key in pending {
        RemoveByKey(key);
      }
      assert View() == S.Deduplicated(old(View()), task);
      if |items| >= S.HARD_CAP {
        return;
      }
      items := items + [task];
      if key != "" {
        pending := pending + {key};
      }
      var depth := |items|;
      if depth >= S.OVERFLOW_DEPTH && !overflowFired {
        overflowFired := true;
        overflowSignals := overflowSignals + 1;
      } else if depth < S.DRAINED_DEPTH && overflowFired {
        overflowFired := false;
      }
    }

    method EnqueuePriority(task: S.Task)
      modifies this
      ensures View() == S.EnqueuePriority(old(View()), task)
    {
      if closed {
        return;
      }
      items := [task] + items;
    }

    method SetCooldown(key: string, now: nat)
      modifies this
      ensures View() == S.SetCooldown(old(View()), key, now)
    {
      if key == "" || cooldownDur <= 0 {
        return;
      }
      cooldowns := cooldowns[key := now + cooldownDur];
    }

    method SetAdaptiveCooldown(key: string, syncDuration: int, now: nat)
      modifies this
      ensures View() == S.SetAdaptiveCooldown(old(View()), key, syncDuration, now)
    {
      if key == "" {
        return;
      }
      var cutoff := now - S.FREQUENCY_WINDOW;
      var history := if key in eventHistory then eventHistory[key] else [];
      var trimmed := [];
      for i := 0 to |history|
        invariant View() == old(View())
        invariant trimmed == S.After(history[..i], cutoff)
      {
        assert history[..i + 1][..i] == history[..i];
        if history[i] > cutoff {
          trimmed := trimmed + [history[i]];
        }
      }
      assert history[..|history|] == history;
      trimmed := trimmed + [now];
      eventHistory := eventHistory[key := trimmed];

      var freqFactor := |trimmed|;
      if freqFactor > S.MAX_FREQUENCY {
        freqFactor := S.MAX_FREQUENCY;
      }
      var cooldown := S.COOLDOWN_BASE * freqFactor;
      var durationCooldown := S.OneAndAHalf(syncDuration);
      if durationCooldown > cooldown {
        cooldown := durationCooldown;
      }
      if cooldown > S.COOLDOWN_MAX {
        cooldown := S.COOLDOWN_MAX;
      }
      cooldowns := cooldowns[key := now + cooldown];
    }

    method RecordFailure(mirrorName: string, now: nat) returns (tripped: bool)
      modifies this
      ensures View() == S.RecordFailure(old(View()), mirrorName, now)
      ensures tripped == S.Trips(old(View()), mirrorName)
    {
      var cs := if mirrorName in circuits then circuits[mirrorName] else S.Circuit(0, 0);
      cs := cs.(consecutiveFailures := cs.consecutiveFailures + 1);
      tripped := false;
      if cs.consecutiveFailures >= BREAKER_THRESHOLD {
        var multiplier := ShiftOne(cs.consecutiveFailures - BREAKER_THRESHOLD);
        var backoff := Wrap64(TimesBase(multiplier));
        if backoff > BREAKER_MAX {
          backoff := BREAKER_MAX;
        }
        cs := cs.(backoffUntil := now + backoff);
        tripped := cs.consecutiveFailures == BREAKER_THRESHOLD;
      }
      circuits := circuits[mirrorName := cs];
    }

    method RecordSuccess(mirrorName: string)
      modifies this
      ensures View() == S.RecordSuccess(old(View()), mirrorName)
    {
      if mirrorName in circuits {
        circuits := circuits[mirrorName := S.Circuit(0, 0)];
      }
    }

    /** One turn of Dequeue's loop: everything between taking the lock and either returning or going
        to wait. cancelled says whether the caller's context is done. */
    method DequeuePass(now: nat, cancelled: bool) returns (r: S.PassResult)
      modifies this
      ensures r == S.Pass(old(View()), now, cancelled)
      ensures View() == S.AfterPass(old(View()), now, cancelled)
    {
      hide S.Key, S.FirstEligible, S.EarliestExpiry;
      if cancelled {
        return S.Finished;
      }
      var earliestExpiry: S.Time := 0;  // the zero time stands for "none yet"
      ghost var q := View();
      for i := 0 to |items|
        invariant View() == q
        invariant forall t :: t in q.items[..i] ==> !S.Eligible(q, t, now)
        invariant i == 0 ==> earliestExpiry == 0
        invariant i > 0 ==> earliestExpiry == S.EarliestExpiry(q, q.items[..i], now) > now
      {
        S.ScanStep(q, i, now);
        var item := items[i];
        var key := S.Key(item);
        var paused := item.mirror in circuits && circuits[item.mirror].backoffUntil > now;
        if item.kind == S.TaskDelete {
          items := items[..i] + items[i + 1..];
          if key != "" {
            pending := pending - {key};
          }
          return S.Taken(item);
        }
        if paused {
          var until := circuits[item.mirror].backoffUntil;
          if earliestExpiry == 0 || until < earliestExpiry {
            earliestExpiry := until;
          }
          continue;
        }
        if key == "" {
          items := items[..i] + items[i + 1..];
          return S.Taken(item);
        }
        if key in cooldowns && cooldowns[key] > now {
          if earliestExpiry == 0 || cooldowns[key] < earliestExpiry {
            earliestExpiry := cooldowns[key];
          }
          continue;
        }
        items := items[..i] + items[i + 1..];
        pending := pending - {key};
        cooldowns := cooldowns - {key};
        return S.Taken(item);
      }
      assert q.items[..|items|] == q.items;
      S.NothingFound(q, now);
      if closed && |items| == 0 {
        return S.Finished;
      }
      if earliestExpiry != 0 {
        return S.WaitUntil(earliestExpiry);
      }
      return S.WaitForSignal;
    }

    method Close()
      modifies this
      ensures View() == old(View()).(closed := true)
    {
      closed := true;
    }
  }
}
