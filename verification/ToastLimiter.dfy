/** The two rate limits on desktop notifications (internal/notify/notify.go:24-108): a minimum gap per
    key and a token bucket over all keys. Times and durations are nanoseconds; the refill rate of one
    token per 30 seconds is taken exactly. */
module ToastLimiter {
  import opened Wrappers

  const REFILL_PERIOD: int := 30_000_000_000
  const CAPACITY: int := 10
  const MIN_GAP: int := 300_000_000_000

  /** int(elapsed * rate): truncation toward zero. */
  function TokensEarned(elapsed: int): int {
    if elapsed >= 0 then elapsed / 30_000_000_000 else -(-elapsed / 30_000_000_000)
  }

  datatype Limiter = Limiter(tokens: int, refilledAt: int, last: map<string, int>)

  /** A call to Send reads the clock up to three times: for the gap, for the refill, for the record. */
  datatype Attempt = Attempt(key: string, t1: int, t2: int, t3: int)

  function Full(now: int): Limiter {
    Limiter(CAPACITY, now, map[])
  }

  function Refilled(b: Limiter, now: int): Limiter {
    var added := TokensEarned(now - b.refilledAt);
    if added > 0 then
      b.(tokens := if b.tokens + added > CAPACITY then CAPACITY else b.tokens + added, refilledAt := now)
    else b
  }

  predicate TooSoon(b: Limiter, a: Attempt) {
    a.key in b.last && a.t1 - b.last[a.key] < MIN_GAP
  }

  predicate Sends(b: Limiter, a: Attempt) {
    !TooSoon(b, a) && Refilled(b, a.t2).tokens > 0
  }

  function AfterSend(b: Limiter, a: Attempt): Limiter {
    if TooSoon(b, a) then b
    else
      var b1 := Refilled(b, a.t2);
      if b1.tokens <= 0 then b1 else Limiter(b1.tokens - 1, b1.refilledAt, b1.last[a.key := a.t3])
  }

  class Notifier {
    const enabled: bool
    var globalTokens: int
    var globalRefilledAt: int
    var last: map<string, int>

    ghost function View(): Limiter
      reads this
    {
      Limiter(globalTokens, globalRefilledAt, last)
    }

    constructor (enabled: bool, now: int)
      ensures View() == Full(now) && this.enabled == enabled
    {
      this.enabled := enabled;
      globalTokens, globalRefilledAt, last := CAPACITY, now, map[];
    }

    method RefillTokens(now: int) returns (tokens: int)
      modifies this
      ensures View() == Refilled(old(View()), now) && tokens == globalTokens
    {
      var added := TokensEarned(now - globalRefilledAt);
      if added > 0 {
        globalTokens := globalTokens + added;
        if globalTokens > CAPACITY {
          globalTokens := CAPACITY;
        }
        globalRefilledAt := now;
      }
      return globalTokens;
    }

    /** sent says whether a toast was started. */
    method Send(a: Attempt) returns (sent: bool)
      modifies this
      ensures sent == (enabled && Sends(old(View()), a))
      ensures View() == if enabled then AfterSend(old(View()), a) else old(View())
    {
      if !enabled {
        return false;
      }
      if a.key in last && a.t1 - last[a.key] < MIN_GAP {
        return false;
      }
      var tokens := RefillTokens(a.t2);
      if tokens <= 0 {
        return false;
      }
      globalTokens := globalTokens - 1;
      last := last[a.key := a.t3];
      return true;
    }
  }

  // ----- whole runs

  function Run(b: Limiter, attempts: seq<Attempt>): Limiter
    decreases |attempts|
  {
    if attempts == [] then b else Run(AfterSend(b, attempts[0]), attempts[1..])
  }

  function SentCount(b: Limiter, attempts: seq<Attempt>): nat
    decreases |attempts|
  {
    if attempts == [] then 0
    else (if Sends(b, attempts[0]) then 1 else 0) + SentCount(AfterSend(b, attempts[0]), attempts[1..])
  }

  /** The clock never goes back, within a call or from one to the next, and stays within the bounds. */
  predicate ClockRuns(attempts: seq<Attempt>, start: int, end: int) {
    attempts == [] || (start <= attempts[0].t1 <= attempts[0].t2 <= attempts[0].t3 <= end
                       && ClockRuns(attempts[1..], attempts[0].t3, end))
  }

  /** What a state reached by a run satisfies. */
  predicate Valid(b: Limiter, now: int) {
    0 <= b.tokens <= CAPACITY && b.refilledAt <= now && forall k :: k in b.last ==> b.last[k] <= now
  }

  lemma StepValid(b: Limiter, a: Attempt, start: int)
    requires Valid(b, start) && start <= a.t1 <= a.t2 <= a.t3
    ensures Valid(AfterSend(b, a), a.t3)
  {
  }

  lemma {:induction false} RunValid(b: Limiter, attempts: seq<Attempt>, start: int, end: int)
    requires Valid(b, start) && start <= end && ClockRuns(attempts, start, end)
    ensures Valid(Run(b, attempts), end)
    decreases |attempts|
  {
    if attempts != [] {
      StepValid(b, attempts[0], start);
      RunValid(AfterSend(b, attempts[0]), attempts[1..], attempts[0].t3, end);
    }
  }

  /** Toasts are paid for by the tokens in the bucket and the time since the last refill. */
  lemma {:induction false} TokensPayForToasts(b: Limiter, attempts: seq<Attempt>, start: int, end: int)
    requires Valid(b, start) && start <= end && ClockRuns(attempts, start, end)
    ensures SentCount(b, attempts) <= b.tokens + TokensEarned(end - b.refilledAt)
    decreases |attempts|
  {
    if attempts != [] {
      var a := attempts[0];
      StepValid(b, a, start);
      TokensPayForToasts(AfterSend(b, a), attempts[1..], a.t3, end);
    }
  }

  function CeilDiv(t: int, d: int): int
    requires d > 0
  {
    (t + d - 1) / d
  }

  /** In any window of the run at most the capacity plus one toast for each started period is sent. */
  lemma {:induction false} WindowBound(b: Limiter, attempts: seq<Attempt>, start: int, length: nat)
    requires Valid(b, start) && ClockRuns(attempts, start, start + length)
    ensures SentCount(b, attempts) <= 10 + CeilDiv(length, 30_000_000_000)
    decreases |attempts|
  {
    if attempts != [] {
      var a := attempts[0];
      if TooSoon(b, a) {
        ShorterWindow(attempts, start, start + length);
        WindowBound(b, attempts[1..], start, length);
      } else {
        StepValid(b, a, start);
        TokensPayForToasts(AfterSend(b, a), attempts[1..], a.t3, start + length);
        assert AfterSend(b, a).refilledAt > start - REFILL_PERIOD;
      }
    }
  }

  lemma {:induction false} ShorterWindow(attempts: seq<Attempt>, start: int, end: int)
    requires attempts != [] && ClockRuns(attempts, start, end)
    ensures ClockRuns(attempts[1..], start, end)
  {
  }

  /** While a key's last toast is on record, no later attempt within the gap sends another. */
  lemma {:induction false} GapIsKept(b: Limiter, attempts: seq<Attempt>, start: int, end: int, key: string, j: nat)
    requires Valid(b, start) && ClockRuns(attempts, start, end) && key in b.last
    requires j < |attempts| && attempts[j].key == key && Sends(Run(b, attempts[..j]), attempts[j])
    ensures attempts[j].t1 >= b.last[key] + MIN_GAP
    decreases |attempts|
  {
    if j == 0 {
      assert attempts[..0] == [];
    } else {
      var a, rest := attempts[0], attempts[1..];
      StepValid(b, a, start);
      assert attempts[..j][1..] == rest[..j - 1];
      GapIsKept(AfterSend(b, a), rest, a.t3, end, key, j - 1);
    }
  }

  /** Two toasts with the same key, in any run from a valid state, are at least the gap apart. */
  lemma {:induction false} SameKeyGap(b: Limiter, attempts: seq<Attempt>, start: int, end: int, i: nat, j: nat)
    requires Valid(b, start) && ClockRuns(attempts, start, end)
    requires i < j < |attempts| && attempts[i].key == attempts[j].key
    requires Sends(Run(b, attempts[..i]), attempts[i]) && Sends(Run(b, attempts[..j]), attempts[j])
    ensures attempts[j].t1 - attempts[i].t3 >= MIN_GAP
    decreases |attempts|
  {
    var a, rest := attempts[0], attempts[1..];
    StepValid(b, a, start);
    assert attempts[..j][1..] == rest[..j - 1];
    if i == 0 {
      assert attempts[..0] == [];
      GapIsKept(AfterSend(b, a), rest, a.t3, end, a.key, j - 1);
    } else {
      assert attempts[..i][1..] == rest[..i - 1];
      SameKeyGap(AfterSend(b, a), rest, a.t3, end, i - 1, j - 1);
    }
  }

  // ----- toasts are not held back without need

  /** An attempt is refused for want of a token. */
  predicate Starved(b: Limiter, a: Attempt) {
    !TooSoon(b, a) && !Sends(b, a)
  }

  /** n toasts since the bucket was full at time full have brought it to its present state: each credit took
      less than two periods a token, since a remainder is lost with every refill. */
  ghost predicate Spent(b: Limiter, full: int, n: nat, now: int) {
    && full <= b.refilledAt <= now
    && b.refilledAt - full <= 2 * REFILL_PERIOD * (b.tokens + n - CAPACITY)
  }

  lemma EarnedAtLeastHalf(elapsed: int)
    requires elapsed >= 0 && TokensEarned(elapsed) > 0
    ensures elapsed <= 2 * REFILL_PERIOD * TokensEarned(elapsed)
  {
  }

  /** One attempt further: either the bucket is full at its refill, or what was spent goes on. */
  lemma SpentStep(b: Limiter, full: int, n: nat, a: Attempt, start: int) returns (full': int, n': nat)
    requires Valid(b, start) && Spent(b, full, n, start) && start <= a.t1 <= a.t2 <= a.t3
    ensures var sent := if Sends(b, a) then 1 else 0;
            Spent(AfterSend(b, a), full', n', a.t3)
            && ((full' == full && n' == n + sent) || (full' == a.t2 && n' == sent && TokensEarned(a.t2 - b.refilledAt) > 0))
  {
    full', n' := full, n + if Sends(b, a) then 1 else 0;
    if !TooSoon(b, a) {
      var added := TokensEarned(a.t2 - b.refilledAt);
      if added > 0 {
        EarnedAtLeastHalf(a.t2 - b.refilledAt);
        if b.tokens + added > CAPACITY {
          full', n' := a.t2, 1;
        }
      }
    }
  }

  /** The window that begins with attempt i, when the bucket was full, holds n toasts. */
  ghost predicate SpentSince(b: Limiter, attempts: seq<Attempt>, i: nat, n: nat, now: int) {
    && i < |attempts| && n == SentCount(Run(b, attempts[..i]), attempts[i..])
    && Spent(Run(b, attempts), attempts[i].t2, n, now)
  }

  lemma {:induction false} SpentInRun(b: Limiter, full: int, n: nat, attempts: seq<Attempt>, start: int, end: int)
    requires Valid(b, start) && start <= end && ClockRuns(attempts, start, end) && Spent(b, full, n, start)
    ensures Spent(Run(b, attempts), full, n + SentCount(b, attempts), end)
            || exists i, n' :: SpentSince(b, attempts, i, n', end)
    decreases |attempts|
  {
    hide Spent, TooSoon, Sends, Refilled;
    if attempts == [] {
      LaterSpent(b, full, n, start, end);
    } else {
      var a, rest := attempts[0], attempts[1..];
      StepValid(b, a, start);
      var b1 := AfterSend(b, a);
      var full1, n1 := SpentStep(b, full, n, a, start);
      SpentInRun(b1, full1, n1, rest, a.t3, end);
      hide AfterSend;
      if i: nat, n': nat :| SpentSince(b1, rest, i, n', end) {
        assert attempts[..i + 1][1..] == rest[..i] && attempts[i + 1..] == rest[i..];
        assert SpentSince(b, attempts, i + 1, n', end);
      } else if full1 != full || n1 != n + (if Sends(b, a) then 1 else 0) {
        assert attempts[..0] == [] && attempts[0..] == attempts;
        assert SpentSince(b, attempts, 0, n1 + SentCount(b1, rest), end);
      }
    }
  }

  lemma LaterSpent(b: Limiter, full: int, n: nat, now: int, later: int)
    requires Spent(b, full, n, now) && now <= later
    ensures Spent(b, full, n, later)
  {
  }

  /** n toasts, more than the capacity, since the time full: more than a token in two periods. */
  predicate Busy(n: nat, full: int, now: int) {
    n >= 10 && now - full < 60_000_000_000 * (n - 10) + 30_000_000_000
  }

  lemma StarvedIsBusy(b: Limiter, full: int, n: nat, a: Attempt, end: int)
    requires Valid(b, end) && Spent(b, full, n, end) && end <= a.t1 <= a.t2 && Starved(b, a)
    ensures Busy(n, full, a.t2)
  {
    assert TokensEarned(a.t2 - b.refilledAt) == 0 && b.tokens == 0;
  }

  /** A toast is refused for want of a token only after many: since a moment when the bucket was full, at
      least ten were sent, and if more, at least one in each 60 seconds beyond the first ten. */
  lemma RefusedOnlyWhenBusy(start: int, attempts: seq<Attempt>, end: int, a: Attempt)
    requires start <= end && ClockRuns(attempts, start, end) && end <= a.t1 <= a.t2
    requires Starved(Run(Full(start), attempts), a)
    ensures Busy(SentCount(Full(start), attempts), start, a.t2)
            || exists i: nat :: i < |attempts| && Busy(SentCount(Run(Full(start), attempts[..i]), attempts[i..]), attempts[i].t2, a.t2)
  {
    var b := Full(start);
    RunValid(b, attempts, start, end);
    assert Spent(b, start, 0, start);
    SpentInRun(b, start, 0, attempts, start, end);
    hide Spent, Starved, Busy, Run, SentCount, ClockRuns, Valid;
    if Spent(Run(b, attempts), start, SentCount(b, attempts), end) {
      StarvedIsBusy(Run(b, attempts), start, SentCount(b, attempts), a, end);
    } else {
      var i: nat, n: nat :| SpentSince(b, attempts, i, n, end);
      StarvedIsBusy(Run(b, attempts), attempts[i].t2, n, a, end);
    }
  }

  /** A refill after a whole period or more loses the remainder: exactly when the remainders add up to
      another period is a token lost. */
  lemma RefillLosesIff(first: nat, second: nat)
    ensures TokensEarned(first) + TokensEarned(second) == TokensEarned(first + second)
            <==> first % REFILL_PERIOD + second % REFILL_PERIOD < REFILL_PERIOD
  {
    var p := REFILL_PERIOD;
    var a, b, r, q := first / p, second / p, first % p, second % p;
    assert first + second == (a + b) * p + (r + q);
    WholePeriods(a + b, r + q);
  }

  lemma WholePeriods(n: nat, r: nat)
    requires r < 2 * REFILL_PERIOD
    ensures TokensEarned(n * REFILL_PERIOD + r) == if r < REFILL_PERIOD then n else n + 1
  {
    var p := REFILL_PERIOD;
    if r >= p { assert n * p + r == (n + 1) * p + (r - p); }
  }

  /** An attempt at one moment, with a key of its own. */
  function At(key: string, t: int): Attempt {
    Attempt(key, t, t, t)
  }

  /** For example, of attempts 29 seconds apart on an empty bucket only every second one is sent: one in 58
      seconds, not one in 30. */
  lemma EverySecondIsRefused(b: Limiter, first: string, second: string, t: int)
    requires b.tokens == 0 && b.refilledAt == t && first !in b.last && second !in b.last
    ensures var a1, a2 := At(first, t + 29_000_000_000), At(second, t + 58_000_000_000);
            && !Sends(b, a1) && Sends(AfterSend(b, a1), a2)
            && AfterSend(AfterSend(b, a1), a2).tokens == 0
            && AfterSend(AfterSend(b, a1), a2).refilledAt == t + 58_000_000_000
  {
  }

  /** When the run last sent a toast with the key. */
  function LastSent(b: Limiter, attempts: seq<Attempt>, key: string): Option<int>
    decreases |attempts|
  {
    if attempts == [] then None
    else
      var a := attempts[0];
      var later := LastSent(AfterSend(b, a), attempts[1..], key);
      if later.Some? then later else if a.key == key && Sends(b, a) then Some(a.t3) else None
  }

  lemma {:induction false} LastByHistory(b: Limiter, attempts: seq<Attempt>, key: string)
    ensures var sent, last := LastSent(b, attempts, key), Run(b, attempts).last;
            if sent.Some? then key in last && last[key] == sent.value
            else (key in last <==> key in b.last) && (key in last ==> last[key] == b.last[key])
    decreases |attempts|
  {
    hide TooSoon, TokensEarned;
    if attempts != [] { LastByHistory(AfterSend(b, attempts[0]), attempts[1..], key); }
  }

  /** An attempt is held back by its key exactly if a toast with the key was sent less than 5 minutes ago. */
  lemma TooSoonIff(start: int, attempts: seq<Attempt>, a: Attempt)
    ensures TooSoon(Run(Full(start), attempts), a)
            <==> LastSent(Full(start), attempts, a.key).Some?
                 && a.t1 - LastSent(Full(start), attempts, a.key).value < 5 * 60 * 1_000_000_000
  {
    LastByHistory(Full(start), attempts, a.key);
    hide Run, LastSent;
  }
}
