/** What becomes of each call of the anomaly recorder: the moment of its send, or of its look at the closed
    flag, decides it, and nothing later changes it. */
module AnomalyFates {
  import opened AnomalyRecorder
  import opened Wrappers

  /** The fate that a call has met, whatever it still has to do. */
  function MetFate(pc: RecordPc): Option<Fate> {
    match pc
    case Full => Some(Dropped)
    case Counted => Some(Dropped)
    case Announcing => Some(Dropped)
    case Leaving(fate) => Some(fate)
    case Finished(fate) => Some(fate)
    case _ => None
  }

  function FateAt(s: State, r: nat): Option<Fate> {
    if r in s.recorders then MetFate(s.recorders[r]) else None
  }

  /** Messages sent that the loop has not taken up. */
  function Backlog(s: State): int {
    |s.sent| - |s.delivered| - if s.loop.Calling? then 1 else 0
  }

  /** What the run decides about the call: sent if fewer than 64 messages wait at its send, dropped if 64
      do, and refused if the recorder is closed when it looks. */
  function Decision(s: State, run: seq<Action>, r: nat): Option<Fate>
    requires Possible(s, run)
    decreases |run|
  {
    if run == [] then None
    else if run[0] == TrySend(r) then Some(if Backlog(s) < 64 then Sent else Dropped)
    else if run[0] == CheckClosed(r) && s.closed then Some(FoundClosed)
    else Decision(Step(s, run[0]), run[1..], r)
  }

  lemma BacklogIsChannel(s: State)
    requires DeliveryInv(s)
    ensures Backlog(s) == |s.channel| <= 64
  {
  }

  predicate ByCall(a: Action) {
    a.ReadLock? || a.CheckClosed? || a.TrySend? || a.CountDrop? || a.ClaimNotice? || a.TryNotice? || a.ReadUnlock?
  }

  /** The call that takes the step. */
  lemma OwnFateStep(s: State, a: Action)
    requires DeliveryInv(s) && Enabled(s, a) && ByCall(a)
    ensures FateAt(Step(s, a), a.r)
            == if a.TrySend? then Some(if Backlog(s) < 64 then Sent else Dropped)
               else if a.CheckClosed? && s.closed then Some(FoundClosed)
               else FateAt(s, a.r)
    ensures a.TrySend? || a.CheckClosed? ==> FateAt(s, a.r) == None
  {
    BacklogIsChannel(s);
    hide DeliveryInv, Backlog, Send;
  }

  /** The other calls. */
  lemma OtherFateStep(s: State, a: Action, r: nat)
    requires Enabled(s, a) && s.counter + 1 !in s.recorders && (ByCall(a) ==> a.r != r)
    ensures FateAt(Step(s, a), r) == FateAt(s, r)
  {
    hide Enabled, MetFate;
    var s' := Step(s, a);
    if a.Record? {
      assert s'.recorders == s.recorders[s.counter + 1 := Arrived];
      assert MetFate(Arrived) == None by { NoFateYet(); }
    } else if ByCall(a) {
      assert r in s'.recorders <==> r in s.recorders;
      assert r in s.recorders ==> s'.recorders[r] == s.recorders[r];
    } else {
      assert s'.recorders == s.recorders;
    }
    hide Step;
  }

  lemma NoFateYet()
    ensures MetFate(Arrived) == None
  {
  }

  lemma FateStep(s: State, a: Action, r: nat)
    requires Inv(s) && Enabled(s, a)
    ensures FateAt(Step(s, a), r)
            == if a == TrySend(r) then Some(if Backlog(s) < 64 then Sent else Dropped)
               else if a == CheckClosed(r) && s.closed then Some(FoundClosed)
               else FateAt(s, r)
    ensures a == TrySend(r) || a == CheckClosed(r) ==> FateAt(s, r) == None
  {
    NewNumber(s);
    hide Step, Enabled, FateAt, Backlog, LockInv, DeliveryInv, AccountInv;
    if ByCall(a) && a.r == r {
      OwnFateStep(s, a);
    } else {
      OtherFateStep(s, a, r);
    }
  }

  lemma NewNumber(s: State)
    requires Inv(s)
    ensures s.counter + 1 !in s.recorders
  {
    hide LockInv, DeliveryInv;
  }

  lemma {:induction false} FateIsDecidedFrom(s: State, run: seq<Action>, r: nat)
    requires Inv(s) && Possible(s, run)
    ensures FateAt(Run(s, run), r) == if FateAt(s, r).Some? then FateAt(s, r) else Decision(s, run, r)
    decreases |run|
  {
    if run != [] {
      FateStep(s, run[0], r);
      StepKeepsInv(s, run[0]);
      hide Inv, Step, Enabled, FateAt, Backlog;
      FateIsDecidedFrom(Step(s, run[0]), run[1..], r);
    }
  }

  /** In every interleaving, the fate of every call is the one decided at its send or at its look at the
      closed flag: an anomaly is dropped exactly when 64 others are waiting, and lost to a closed recorder
      exactly when the call comes after the close. */
  lemma FateIsDecided(run: seq<Action>, r: nat)
    requires Possible(Initial(), run)
    ensures FateAt(Run(Initial(), run), r) == Decision(Initial(), run, r)
  {
    InitialInv();
    FateIsDecidedFrom(Initial(), run, r);
  }

  /** Some action of the run, by its kind. */
  predicate HasMark(run: seq<Action>) {
    run != [] && (run[0].Mark? || HasMark(run[1..]))
  }

  predicate HasClaim(run: seq<Action>) {
    run != [] && (run[0].ClaimNotice? || HasClaim(run[1..]))
  }

  lemma FlagsStep(s: State, a: Action)
    requires Enabled(s, a)
    ensures Step(s, a).closed <==> s.closed || a.Mark?
    ensures Step(s, a).announced <==> s.announced || a.ClaimNotice?
  {
    hide Enabled;
  }

  /** The recorder is closed once a Close call has got the lock, and the overflow is announced once a call
      has claimed the notice. */
  lemma {:induction false} FlagsIff(s: State, run: seq<Action>)
    requires Possible(s, run)
    ensures Run(s, run).closed <==> s.closed || HasMark(run)
    ensures Run(s, run).announced <==> s.announced || HasClaim(run)
    decreases |run|
  {
    hide Step, Enabled;
    if run != [] {
      FlagsStep(s, run[0]);
      FlagsIff(Step(s, run[0]), run[1..]);
    }
  }

  /** The overflow notice is tried with room in the channel. */
  predicate NoticeHasRoom(s: State, run: seq<Action>)
    requires Possible(s, run)
    decreases |run|
  {
    run != [] && ((run[0].TryNotice? && Backlog(s) < 64) || NoticeHasRoom(Step(s, run[0]), run[1..]))
  }

  /** The notice is sent exactly if the call that announces the overflow finds room for it. */
  lemma {:induction false} NoticeIsSentIff(s: State, run: seq<Action>)
    requires Inv(s) && Possible(s, run)
    ensures OverflowNotice in Run(s, run).sent <==> OverflowNotice in s.sent || NoticeHasRoom(s, run)
    decreases |run|
  {
    if run != [] {
      NoticeStep(s, run[0]);
      StepKeepsInv(s, run[0]);
      hide Inv, Step, Enabled, Backlog;
      NoticeIsSentIff(Step(s, run[0]), run[1..]);
    }
  }

  lemma SendAdds(s: State, m: Message, x: Message)
    requires DeliveryInv(s) && !s.channelClosed
    ensures x in Send(s, m).sent <==> x in s.sent || (x == m && Backlog(s) < 64)
  {
    BacklogIsChannel(s);
    hide Backlog, DeliveryInv;
  }

  lemma NoticeStep(s: State, a: Action)
    requires Inv(s) && Enabled(s, a)
    ensures OverflowNotice in Step(s, a).sent <==> OverflowNotice in s.sent || (a.TryNotice? && Backlog(s) < 64)
  {
    if a.TryNotice? || a.TrySend? {
      assert !s.channelClosed by { SenderFindsOpen(s, a); }
      SendAdds(s, if a.TryNotice? then OverflowNotice else Anomaly(a.r), OverflowNotice);
      hide Inv, Send, Backlog, Enabled;
    } else {
      hide Inv, Backlog, Enabled;
      assert Step(s, a).sent == s.sent;
    }
  }

  lemma SenderFindsOpen(s: State, a: Action)
    requires Inv(s) && Enabled(s, a) && (a.TryNotice? || a.TrySend?)
    ensures !s.channelClosed
  {
    hide DeliveryInv, AccountInv;
  }

  // ----- only the first Close waits

  predicate IsFirst(pc: ClosePc) {
    pc == Marked || pc == Releasing(true) || pc == Waiting || pc == Returned(true)
  }

  /** At most one Close call is the first, and there is one once the recorder is closed. */
  ghost predicate OneFirst(s: State) {
    && (forall c, d :: c in s.closers && d in s.closers && IsFirst(s.closers[c]) && IsFirst(s.closers[d]) ==> c == d)
    && (forall c :: c in s.closers && IsFirst(s.closers[c]) ==> s.closed)
  }

  /** A Close call that moves on within what its being first allows. */
  lemma MoveKeepsOneFirst(s: State, c: nat, pc: ClosePc, s': State)
    requires OneFirst(s) && s'.closers == s.closers[c := pc] && (s.closed ==> s'.closed)
    requires IsFirst(pc) ==> s'.closed && (!s.closed || (c in s.closers && IsFirst(s.closers[c])))
    ensures OneFirst(s')
  {
    hide IsFirst;
  }

  lemma StepKeepsOneFirst(s: State, a: Action)
    requires OneFirst(s) && Enabled(s, a)
    ensures OneFirst(Step(s, a))
  {
    var s' := Step(s, a);
    if a.Close? || a.WriteLock? || a.Mark? || a.CloseChannel? || a.WriteUnlock? || a.PassWait? {
      assert s'.closers == s.closers[a.c := s'.closers[a.c]];
      MoveKeepsOneFirst(s, a.c, s'.closers[a.c], s');
      hide OneFirst, Step, Enabled;
    } else {
      assert s'.closers == s.closers && s'.closed == s.closed;
      hide Step, Enabled;
    }
  }

  /** In every interleaving, only one Close call ever waits for the loop; the others return at once. */
  lemma {:induction false} OnlyFirstCloseWaits(s: State, run: seq<Action>)
    requires OneFirst(s) && Possible(s, run)
    ensures OneFirst(Run(s, run))
    decreases |run|
  {
    hide OneFirst, Step, Enabled;
    if run != [] {
      StepKeepsOneFirst(s, run[0]);
      OnlyFirstCloseWaits(Step(s, run[0]), run[1..]);
    }
  }

  // ----- the overflow is announced

  predicate HasTry(run: seq<Action>) {
    run != [] && (run[0].TryNotice? || HasTry(run[1..]))
  }

  ghost predicate SomeoneAnnounces(s: State) {
    exists r :: RecorderAt(s, r, Announcing)
  }

  /** The overflow has been claimed exactly if a call is about to send the notice or has tried to. */
  ghost predicate ClaimIsPursued(s: State, tried: bool) {
    s.announced <==> SomeoneAnnounces(s) || tried
  }

  /** Only a claim makes a call one that announces, and only its try ends that. */
  lemma AnnouncerStep(s: State, a: Action, r: nat)
    requires Enabled(s, a) && s.counter + 1 !in s.recorders
    ensures RecorderAt(Step(s, a), r, Announcing)
            <==> (RecorderAt(s, r, Announcing) && a != TryNotice(r)) || (a == ClaimNotice(r) && !s.announced)
  {
    var s' := Step(s, a);
    if a.Record? {
      assert s'.recorders == s.recorders[s.counter + 1 := Arrived];
    } else if ByCall(a) {
      assert r != a.r ==> (r in s'.recorders <==> r in s.recorders);
      assert r != a.r && r in s.recorders ==> s'.recorders[r] == s.recorders[r];
    } else {
      assert s'.recorders == s.recorders;
    }
  }

  lemma PursuitStep(s: State, a: Action, tried: bool)
    requires Inv(s) && Enabled(s, a) && ClaimIsPursued(s, tried)
    ensures ClaimIsPursued(Step(s, a), tried || a.TryNotice?)
  {
    FlagsStep(s, a);
    NewNumber(s);
    forall r
      ensures RecorderAt(Step(s, a), r, Announcing)
              <==> (RecorderAt(s, r, Announcing) && a != TryNotice(r)) || (a == ClaimNotice(r) && !s.announced)
    {
      AnnouncerStep(s, a, r);
    }
    assert a.TryNotice? ==> RecorderAt(s, a.r, Announcing);
    hide Inv, Step, Enabled, RecorderAt;
    assert a.ClaimNotice? && !s.announced ==> RecorderAt(Step(s, a), a.r, Announcing);
    if r :| RecorderAt(s, r, Announcing) {
      assert a != TryNotice(r) ==> RecorderAt(Step(s, a), r, Announcing);
    }
  }

  lemma {:induction false} PursuedInRun(s: State, run: seq<Action>, tried: bool)
    requires Inv(s) && Possible(s, run) && ClaimIsPursued(s, tried)
    ensures ClaimIsPursued(Run(s, run), tried || HasTry(run))
    decreases |run|
  {
    if run != [] {
      PursuitStep(s, run[0], tried);
      StepKeepsInv(s, run[0]);
      hide Inv, Step, Enabled, SomeoneAnnounces;
      PursuedInRun(Step(s, run[0]), run[1..], tried || run[0].TryNotice?);
    }
  }

  /** In every interleaving in which some dropped call has claimed the notice, a call has tried to send it or
      is still about to. */
  lemma OverflowIsAnnounced(run: seq<Action>)
    requires Possible(Initial(), run)
    ensures HasClaim(run) <==> SomeoneAnnounces(Run(Initial(), run)) || HasTry(run)
  {
    InitialInv();
    FlagsIff(Initial(), run);
    PursuedInRun(Initial(), run, false);
    hide Run, SomeoneAnnounces;
  }

  // ----- a lost notice

  lemma {:induction false} OneMoreStep(s: State, run: seq<Action>, a: Action)
    requires Possible(s, run) && Enabled(Run(s, run), a)
    ensures Possible(s, run + [a]) && Run(s, run + [a]) == Step(Run(s, run), a)
    decreases |run|
  {
    hide Step, Enabled;
    if run == [] {
      assert run + [a] == [a] && [a][1..] == [];
    } else {
      assert (run + [a])[1..] == run[1..] + [a] && (run + [a])[0] == run[0];
      OneMoreStep(Step(s, run[0]), run[1..], a);
    }
  }

  /** calls have been made, none has closed, n messages wait and none has been taken up. */
  ghost predicate Waits(s: State, calls: nat, n: nat) {
    && s.counter == calls && s.closers == map[] && s.loop == Receiving && !s.closed && !s.channelClosed
    && |s.channel| == n && OverflowNotice !in s.sent
  }

  lemma CallEnters(s: State, n: nat)
    requires Waits(s, n, n) && n <= 64
    ensures var r, s1 := n + 1, Step(s, Record);
            Waits(s1, r, n) && RecorderAt(s1, r, Arrived) && s1.dropped == s.dropped && s1.announced == s.announced
  {
  }

  /** A call's next step before its send. */
  lemma CallGoesOn(s: State, calls: nat, n: nat, r: nat, a: Action)
    requires Waits(s, calls, n)
    requires (a == ReadLock(r) && RecorderAt(s, r, Arrived)) || (a == CheckClosed(r) && RecorderAt(s, r, Locked))
    ensures Enabled(s, a)
    ensures var s1 := Step(s, a);
            Waits(s1, calls, n) && s1.dropped == s.dropped && s1.announced == s.announced
            && RecorderAt(s1, r, if a.ReadLock? then Locked else Open)
  {
  }

  lemma CallSends(s: State, calls: nat, n: nat, r: nat)
    requires Waits(s, calls, n) && RecorderAt(s, r, Open) && n <= 64
    ensures var s1 := Step(s, TrySend(r));
            s1.dropped == s.dropped && s1.announced == s.announced
            && if n < 64 then Waits(s1, calls, n + 1) && RecorderAt(s1, r, Leaving(Sent))
               else Waits(s1, calls, n) && RecorderAt(s1, r, Full)
  {
    assert n < 64 ==> Step(s, TrySend(r)).sent == s.sent + [Anomaly(r)];
  }

  /** The next call, up to its send. */
  lemma NextCall(run: seq<Action>, n: nat) returns (more: seq<Action>)
    requires Possible(Initial(), run) && Waits(Run(Initial(), run), n, n) && n <= 64
    ensures Possible(Initial(), more)
    ensures var r, s, s1 := n + 1, Run(Initial(), run), Run(Initial(), more);
            s1.dropped == s.dropped && s1.announced == s.announced
            && if n < 64 then Waits(s1, r, r) && RecorderAt(s1, r, Leaving(Sent))
               else Waits(s1, r, n) && RecorderAt(s1, r, Full)
  {
    var r := n + 1;
    CallEnters(Run(Initial(), run), n);
    assert Enabled(Run(Initial(), run), Record) && forall s :: RecorderAt(s, r, Open) ==> Enabled(s, TrySend(r));
    hide Waits, Step, Enabled, RecorderAt;
    OneMoreStep(Initial(), run, Record);
    more := run + [Record];
    CallGoesOn(Run(Initial(), more), r, n, r, ReadLock(r));
    OneMoreStep(Initial(), more, ReadLock(r));
    more := more + [ReadLock(r)];
    CallGoesOn(Run(Initial(), more), r, n, r, CheckClosed(r));
    OneMoreStep(Initial(), more, CheckClosed(r));
    more := more + [CheckClosed(r)];
    CallSends(Run(Initial(), more), r, n, r);
    OneMoreStep(Initial(), more, TrySend(r));
    more := more + [TrySend(r)];
  }

  lemma {:induction false} Filling(n: nat) returns (run: seq<Action>)
    requires n <= 64
    ensures Possible(Initial(), run)
    ensures var s := Run(Initial(), run); Waits(s, n, n) && s.dropped == 0 && !s.announced
  {
    if n == 0 {
      run := [];
    } else {
      run := Filling(n - 1);
      hide Waits, Step, Enabled, RecorderAt;
      run := NextCall(run, n - 1);
    }
  }

  /** The steps of a call after its send has found the channel full. */
  lemma DroppedCall(s: State, r: nat)
    requires Waits(s, r, 64) && RecorderAt(s, r, Full) && !s.announced
    ensures Enabled(s, CountDrop(r))
    ensures var s1 := Step(s, CountDrop(r));
            && Enabled(s1, ClaimNotice(r))
            && var s2 := Step(s1, ClaimNotice(r));
               && Enabled(s2, TryNotice(r))
               && var s3 := Step(s2, TryNotice(r));
                  s3.dropped == s.dropped + 1 && s3.announced && OverflowNotice !in s3.sent
  {
  }

  /** For example, while the channel stays full after 64 anomalies, the 65th is dropped and the notice of the
      overflow along with it; as it counts as announced, no call tries again. */
  lemma NoticeIsLost() returns (run: seq<Action>)
    ensures Possible(Initial(), run)
    ensures var s := Run(Initial(), run); s.dropped == 1 && s.announced && OverflowNotice !in s.sent
  {
    hide Waits, Step, Enabled, RecorderAt;
    run := Filling(64);
    run := NextCall(run, 64);
    DroppedCall(Run(Initial(), run), 65);
    OneMoreStep(Initial(), run, CountDrop(65));
    run := run + [CountDrop(65)];
    OneMoreStep(Initial(), run, ClaimNotice(65));
    run := run + [ClaimNotice(65)];
    OneMoreStep(Initial(), run, TryNotice(65));
    run := run + [TryNotice(65)];
  }
}
