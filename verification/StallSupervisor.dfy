/** The supervisor that kills a wedged rclone process (internal/sync/liveness.go:27-36, 131-421). */
module StallSupervisor {
  import opened Wrappers

  datatype Signals = Signals(cpuNs: nat, ioBytes: nat)

  /** What one tick samples: the time of the last output, and the process counters if the probe worked. */
  datatype Tick = Tick(outputNs: int, probe: Option<Signals>)

  datatype WaitResult = Clean | ExitError(code: int) | OtherError

  /** What the select loop receives, in the order it receives it. */
  datatype Event = Ticked(tick: Tick) | Cancelled | Exited(result: WaitResult)

  datatype KillReason = ExitNatural | CtxCancel | Stalled

  datatype Bucket = Transfer | Metadata

  function BucketFor(verb: string): Bucket {
    if verb in {"copyto", "copy", "sync", "moveto", "touch"} then Transfer else Metadata
  }

  /** Consecutive flat ticks before the kill. */
  function Patience(b: Bucket): (k: nat)
    ensures k > 0
  {
    match b case Transfer => 6 case Metadata => 8
  }

  /** Seconds from tick to tick. */
  function TickSeconds(b: Bucket): nat {
    match b case Transfer => 10 case Metadata => 30
  }

  /** A transfer is given 60 seconds without a sign of life, anything else, verbs unknown here included, the
      more permissive 240. */
  lemma GraceSeconds(verb: string)
    ensures var b := BucketFor(verb);
            Patience(b) * TickSeconds(b) == if verb in {"copyto", "copy", "sync", "moveto", "touch"} then 60 else 240
  {
  }

  function NaturalCode(result: WaitResult): int {
    match result
    case Clean => 0
    case ExitError(code) => code
    case OtherError => -1
  }

  function ClassifyExit(reason: KillReason, result: WaitResult): int {
    match reason
    case Stalled => -2
    case CtxCancel => -3
    case ExitNatural => NaturalCode(result)
  }

  // ----- the behaviour in terms of the whole history

  /** Tick j is the last successful probe before tick i. */
  ghost predicate LastProbeBefore(ticks: seq<Tick>, j: int, i: nat)
    requires i <= |ticks|
  {
    0 <= j < i && ticks[j].probe.Some? && forall m :: j < m < i ==> ticks[m].probe.None?
  }

  /** Tick i shows a sign of life: output since the tick before, or more processor time or transferred
      bytes than at the last successful probe. start is the activity time when the loop began. */
  ghost predicate Moved(start: int, ticks: seq<Tick>, i: nat)
    requires i < |ticks|
  {
    || ticks[i].outputNs > (if i == 0 then start else ticks[i - 1].outputNs)
    || (ticks[i].probe.Some? &&
        exists j :: LastProbeBefore(ticks, j, i) &&
                    (ticks[i].probe.value.cpuNs > ticks[j].probe.value.cpuNs
                     || ticks[i].probe.value.ioBytes > ticks[j].probe.value.ioBytes))
  }

  /** The number of ticks since the last one that showed a sign of life. */
  ghost function FlatTicks(start: int, ticks: seq<Tick>, n: nat): nat
    requires n <= |ticks|
  {
    if n == 0 || Moved(start, ticks, n - 1) then 0 else 1 + FlatTicks(start, ticks, n - 1)
  }

  ghost predicate FlatStretch(start: int, ticks: seq<Tick>, i: nat, k: nat) {
    i + k <= |ticks| && forall j :: i <= j < i + k ==> !Moved(start, ticks, j)
  }

  /** k ticks in a row without any sign of life. */
  ghost predicate Flatlines(start: int, ticks: seq<Tick>, k: nat) {
    exists i: nat :: FlatStretch(start, ticks, i, k)
  }

  /** The ticks the loop acts on: those before the cancellation, if there is one. */
  function TicksBeforeCancel(events: seq<Event>): seq<Tick> {
    if events == [] then []
    else
      var earlier, e := events[..|events| - 1], events[|events| - 1];
      TicksBeforeCancel(earlier) + if e.Ticked? && Cancelled !in earlier then [e.tick] else []
  }

  /** The exit code for the events up to, and without, the process's exit. */
  ghost function ExitCode(k: nat, start: int, events: seq<Event>, result: WaitResult): int {
    if Flatlines(start, TicksBeforeCancel(events), k) then -2
    else if Cancelled in events then -3
    else NaturalCode(result)
  }

  ghost predicate ExitsAt(events: seq<Event>, n: nat) {
    n < |events| && events[n].Exited? && forall i :: 0 <= i < n ==> !events[i].Exited?
  }

  // ----- proofs about the history

  lemma {:induction false} PrefixKeepsFlatTicks(start: int, ticks: seq<Tick>, t: Tick, n: nat)
    requires n <= |ticks|
    ensures FlatTicks(start, ticks + [t], n) == FlatTicks(start, ticks, n)
  {
    if n > 0 {
      PrefixKeepsFlatTicks(start, ticks, t, n - 1);
      MovedInPrefix(start, ticks, t, n - 1);
    }
  }

  lemma MovedInPrefix(start: int, ticks: seq<Tick>, t: Tick, i: nat)
    requires i < |ticks|
    ensures Moved(start, ticks + [t], i) <==> Moved(start, ticks, i)
  {
    var more := ticks + [t];
    assert forall m :: 0 <= m <= i ==> more[m] == ticks[m];
    forall j | 0 <= j < i ensures LastProbeBefore(more, j, i) <==> LastProbeBefore(ticks, j, i) {}
  }

  lemma {:induction false} FlatTicksSpan(start: int, ticks: seq<Tick>, n: nat)
    requires n <= |ticks|
    ensures FlatTicks(start, ticks, n) <= n
    ensures forall j :: n - FlatTicks(start, ticks, n) <= j < n ==> !Moved(start, ticks, j)
    ensures FlatTicks(start, ticks, n) < n ==> Moved(start, ticks, n - FlatTicks(start, ticks, n) - 1)
  {
    if n > 0 { FlatTicksSpan(start, ticks, n - 1); }
  }

  lemma FlatTicksStep(start: int, ticks: seq<Tick>, t: Tick)
    ensures FlatTicks(start, ticks + [t], |ticks| + 1)
            == if Moved(start, ticks + [t], |ticks|) then 0 else 1 + FlatTicks(start, ticks, |ticks|)
  {
    PrefixKeepsFlatTicks(start, ticks, t, |ticks|);
  }

  /** One more tick flatlines exactly when the ticks before it did or the flat stretch it ends is long
      enough. */
  lemma FlatlinesStep(start: int, ticks: seq<Tick>, t: Tick, k: nat)
    requires k > 0
    ensures Flatlines(start, ticks + [t], k)
            <==> Flatlines(start, ticks, k) || FlatTicks(start, ticks + [t], |ticks| + 1) >= k
  {
    var more, n := ticks + [t], |ticks| + 1;
    FlatTicksSpan(start, more, n);
    var f := FlatTicks(start, more, n);
    if f >= k {
      assert FlatStretch(start, more, n - k, k);
    }
    if Flatlines(start, ticks, k) {
      var i: nat :| FlatStretch(start, ticks, i, k);
      forall j | i <= j < i + k ensures !Moved(start, more, j) { MovedInPrefix(start, ticks, t, j); }
      assert FlatStretch(start, more, i, k);
    }
    if Flatlines(start, more, k) && f < k {
      var i: nat :| FlatStretch(start, more, i, k);
      assert i + k < n;
      forall j | i <= j < i + k ensures !Moved(start, ticks, j) { MovedInPrefix(start, ticks, t, j); }
      assert FlatStretch(start, ticks, i, k);
    }
  }

  ghost predicate ShowsLife(start: int, ticks: seq<Tick>, i: nat, k: nat)
    requires i + k <= |ticks|
  {
    exists j: nat :: i <= j < i + k && Moved(start, ticks, j)
  }

  ghost predicate Lively(start: int, ticks: seq<Tick>, k: nat) {
    forall i: nat :: i + k <= |ticks| ==> ShowsLife(start, ticks, i, k)
  }

  /** A process that shows a sign of life at least once in every k ticks in a row is never killed for
      stalling. */
  lemma LivelyIsNeverStalled(start: int, events: seq<Event>, k: nat, result: WaitResult)
    requires k > 0
    requires Lively(start, TicksBeforeCancel(events), k)
    ensures ExitCode(k, start, events, result)
            == if Cancelled in events then -3 else NaturalCode(result)
  {
    var ticks := TicksBeforeCancel(events);
    forall i: nat ensures !FlatStretch(start, ticks, i, k) {
      if i + k <= |ticks| { assert ShowsLife(start, ticks, i, k); }
    }
  }

  /** At every tick but the first one signal is ahead of where it was the tick before. */
  ghost predicate Advances(ticks: seq<Tick>, signal: Tick -> int) {
    forall i :: 0 < i < |ticks| ==> signal(ticks[i - 1]) < signal(ticks[i])
  }

  /** Each of the three signals is enough alone: a process whose output, or processor time, or transferred
      bytes advance from tick to tick is never stalled. */
  lemma OneSignalIsEnough(start: int, ticks: seq<Tick>, k: nat)
    requires k > 1
    requires || Advances(ticks, (t: Tick) => t.outputNs)
             || ((forall t :: t in ticks ==> t.probe.Some?)
                 && (Advances(ticks, (t: Tick) => if t.probe.Some? then t.probe.value.cpuNs else 0)
                     || Advances(ticks, (t: Tick) => if t.probe.Some? then t.probe.value.ioBytes else 0)))
    ensures !Flatlines(start, ticks, k)
  {
    forall i: nat ensures !FlatStretch(start, ticks, i, k) {
      if i + k <= |ticks| {
        assert ticks[i] in ticks && ticks[i + 1] in ticks;
        assert ticks[i].probe.Some? ==> LastProbeBefore(ticks, i, i + 1);
        assert Moved(start, ticks, i + 1);
      }
    }
  }

  /** Without a kill the process's own exit code is passed on. */
  lemma OwnExitCodeIsPassedOn(start: int, events: seq<Event>, k: nat, result: WaitResult)
    requires k > 0 && Lively(start, TicksBeforeCancel(events), k) && Cancelled !in events
    ensures var code := ExitCode(k, start, events, result);
            && (result.Clean? ==> code == 0) && (result.OtherError? ==> code == -1)
            && (result.ExitError? ==> code == result.code)
  {
    LivelyIsNeverStalled(start, events, k, result);
  }

  /** As long as the process itself does not exit with the codes of the two kills, these mean what they
      say: -2 a stall, -3 a cancellation that no stall has come before. */
  lemma KillCodesIff(start: int, events: seq<Event>, k: nat, result: WaitResult)
    requires result.ExitError? ==> result.code != -2 && result.code != -3
    ensures ExitCode(k, start, events, result) == -2 <==> Stalls(start, TicksBeforeCancel(events), k)
    ensures ExitCode(k, start, events, result) == -3
            <==> Cancelled in events && !Stalls(start, TicksBeforeCancel(events), k)
  {
    StallsIff(start, TicksBeforeCancel(events), k);
    hide Flatlines, Stalls;
  }

  /** The first n ticks end with k in a row without a sign of life. */
  ghost predicate EndsFlat(start: int, ticks: seq<Tick>, n: nat, k: nat) {
    k <= n <= |ticks| && forall j :: n - k <= j < n ==> !Moved(start, ticks, j)
  }

  ghost predicate Stalls(start: int, ticks: seq<Tick>, k: nat) {
    exists n: nat :: EndsFlat(start, ticks, n, k)
  }

  lemma StallsIff(start: int, ticks: seq<Tick>, k: nat)
    ensures Stalls(start, ticks, k) <==> Flatlines(start, ticks, k)
  {
    hide Moved;
    if Stalls(start, ticks, k) {
      var n: nat :| EndsFlat(start, ticks, n, k);
      assert FlatStretch(start, ticks, n - k, k);
    }
    if Flatlines(start, ticks, k) {
      var i: nat :| FlatStretch(start, ticks, i, k);
      assert EndsFlat(start, ticks, i + k, k);
    }
  }

  /** No output in k ticks in a row. */
  ghost predicate SilentStretch(start: int, ticks: seq<Tick>, i: nat, k: nat) {
    i + k <= |ticks|
    && forall j :: i <= j < i + k ==> ticks[j].outputNs <= if j == 0 then start else ticks[j - 1].outputNs
  }

  /** Failed probes do not protect the process: while they fail, exactly the silence of the output decides. */
  lemma UnprobedFlatlinesIff(start: int, ticks: seq<Tick>, k: nat)
    requires forall i :: 0 <= i < |ticks| ==> ticks[i].probe.None?
    ensures Flatlines(start, ticks, k) <==> exists i: nat :: SilentStretch(start, ticks, i, k)
  {
    forall i: nat ensures FlatStretch(start, ticks, i, k) <==> SilentStretch(start, ticks, i, k) {
      if i + k <= |ticks| {
        forall j | i <= j < i + k
          ensures !Moved(start, ticks, j) <==> ticks[j].outputNs <= if j == 0 then start else ticks[j - 1].outputNs
        {
        }
      }
    }
  }

  /** For example, with silent output and every probe failing, the process is killed at the k-th tick. */
  lemma SilentUnprobedIsKilled(start: int, events: seq<Event>, k: nat, result: WaitResult)
    requires var ticks := TicksBeforeCancel(events);
             k <= |ticks| && forall i :: 0 <= i < |ticks| ==> ticks[i] == Tick(start, None)
    ensures ExitCode(k, start, events, result) == -2
  {
    assert FlatStretch(start, TicksBeforeCancel(events), 0, k);
  }

  // ----- the loop

  /** What the loop carries from tick to tick. */
  datatype Sample = Sample(outputNs: int, cpuNs: nat, ioBytes: nat, probedOK: bool)

  ghost predicate Remembers(prev: Sample, start: int, ticks: seq<Tick>) {
    && prev.outputNs == (if ticks == [] then start else ticks[|ticks| - 1].outputNs)
    && (prev.probedOK <==> exists j :: LastProbeBefore(ticks, j, |ticks|))
    && (forall j :: LastProbeBefore(ticks, j, |ticks|) ==>
          prev.cpuNs == ticks[j].probe.value.cpuNs && prev.ioBytes == ticks[j].probe.value.ioBytes)
  }

  function AnyMoved(prev: Sample, t: Tick): bool {
    || t.outputNs > prev.outputNs
    || (t.probe.Some? && prev.probedOK && (t.probe.value.cpuNs > prev.cpuNs || t.probe.value.ioBytes > prev.ioBytes))
  }

  function NextSample(prev: Sample, t: Tick): Sample {
    if t.probe.Some? then Sample(t.outputNs, t.probe.value.cpuNs, t.probe.value.ioBytes, true)
    else prev.(outputNs := t.outputNs)
  }

  lemma TickStep(prev: Sample, start: int, ticks: seq<Tick>, t: Tick)
    requires Remembers(prev, start, ticks)
    ensures AnyMoved(prev, t) <==> Moved(start, ticks + [t], |ticks|)
    ensures Remembers(NextSample(prev, t), start, ticks + [t])
  {
    var more, n := ticks + [t], |ticks|;
    forall j | 0 <= j < n ensures LastProbeBefore(more, j, n) <==> LastProbeBefore(ticks, j, n) {
      assert forall m :: 0 <= m < n ==> more[m] == ticks[m];
    }
    forall j ensures LastProbeBefore(more, j, n + 1)
                     <==> if t.probe.Some? then j == n else LastProbeBefore(ticks, j, n)
    {
      assert more[n] == t && forall m :: 0 <= m < n ==> more[m] == ticks[m];
    }
    if t.probe.Some? {
      assert LastProbeBefore(more, n, n + 1);
    } else if prev.probedOK {
      var j :| LastProbeBefore(ticks, j, n);
      assert LastProbeBefore(more, j, n + 1);
    }
  }

  lemma NothingYet(start: int, k: nat)
    requires k > 0
    ensures Remembers(Sample(start, 0, 0, false), start, []) && !Flatlines(start, [], k) && FlatTicks(start, [], 0) == 0
  {
  }

  /** The select loop, from the start of the process to its exit; None if the events end before that.
      The kill itself only makes the exit come, which is one of the events. */
  method RunWithSupervisor(verb: string, start: int, events: seq<Event>) returns (exit: Option<int>)
    ensures exit.None? <==> forall n: nat :: !ExitsAt(events, n)
    ensures forall n: nat :: ExitsAt(events, n) ==>
              exit == Some(ExitCode(Patience(BucketFor(verb)), start, events[..n], events[n].result))
  {
    hide FlatTicks, Moved, Flatlines, Remembers, AnyMoved, NextSample, BucketFor;
    var k := Patience(BucketFor(verb));
    NothingYet(start, k);
    var reason := ExitNatural;
    var prev := Sample(start, 0, 0, false);
    var stallCounter := 0;
    var waiting := false;  // the loop has been left for the final wait
    for i := 0 to |events|
      invariant forall n :: 0 <= n < i ==> !events[n].Exited?
      invariant waiting <==> Cancelled in events[..i]
      invariant !waiting ==> Remembers(prev, start, TicksBeforeCancel(events[..i]))
      invariant var ticks := TicksBeforeCancel(events[..i]);
                && (!waiting ==> stallCounter == FlatTicks(start, ticks, |ticks|))
                && (reason == Stalled <==> Flatlines(start, ticks, k))
                && (reason == CtxCancel <==> waiting && !Flatlines(start, ticks, k))
    {
      ghost var ticks := TicksBeforeCancel(events[..i]);
      assert events[..i + 1][..i] == events[..i] && ticks + [] == ticks;
      match events[i]
      case Exited(result) =>
        assert ExitsAt(events, i);
        return Some(ClassifyExit(reason, result));
      case Cancelled =>
        if reason == ExitNatural {
          reason := CtxCancel;
        }
        waiting := true;
      case Ticked(tick) =>
        if !waiting {
          FlatlinesStep(start, ticks, tick, k);
          TickStep(prev, start, ticks, tick);
          FlatTicksStep(start, ticks, tick);
          var anyMoved := AnyMoved(prev, tick);
          if anyMoved {
            stallCounter := 0;
          } else {
            stallCounter := stallCounter + 1;
          }
          prev := NextSample(prev, tick);
          assert TicksBeforeCancel(events[..i + 1]) == ticks + [tick];
          assert stallCounter == FlatTicks(start, ticks + [tick], |ticks| + 1);
          if stallCounter >= k && reason == ExitNatural {
            reason := Stalled;
          }
        }
    }
    return None;
  }

  // ----- the capped copy of the process's standard error

  class BoundedStderr {
    const cap: int
    var buf: string
    var truncated: bool
    ghost var stream: string  // everything written so far

    ghost predicate Valid()
      reads this
    {
      && buf == (if 0 < cap < |stream| then stream[..cap] else stream)
      && (0 < cap < |stream| ==> truncated)
    }

    constructor (cap: int)
      ensures Valid() && this.cap == cap && stream == "" && !truncated
    {
      this.cap := cap;
      buf, truncated, stream := "", false, "";
    }

    /** Keeps the first cap bytes, never fails, and marks the capture as truncated when bytes are lost,
        or when anything, even nothing, is written to a full buffer. */
    method Write(p: string) returns (n: nat)
      requires Valid()
      modifies this
      ensures Valid() && n == |p| && stream == old(stream) + p
      ensures truncated <==> old(truncated) || (cap > 0 && (|stream| > cap || |old(stream)| >= cap))
    {
      stream := stream + p;
      n := |p|;
      if cap <= 0 {
        buf := buf + p;
        return;
      }
      var remaining := cap - |buf|;
      if remaining <= 0 {
        truncated := true;
      } else if |p| > remaining {
        buf := buf + p[..remaining];
        truncated := true;
      } else {
        buf := buf + p;
      }
    }
  }
}
