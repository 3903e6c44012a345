/** The install-event pipeline (internal/telemetry/install_events.go:63-341): at most one first_seen and
    one upgrade attempt per daemon startup, with retry counters kept in the state database's meta table. */
module InstallEvents {
  import opened Wrappers
  import D = Decimal

  const FIRST_SEEN_AT := "first_seen_at"
  const LAST_VERSION := "last_recorded_version"
  const FIRST_SEEN_ATTEMPTS := "first_seen_attempts"
  const UPGRADE_ATTEMPTS := "upgrade_attempts"
  const INSTALL_ID := "install_id"
  const MAX_ATTEMPTS: nat := 5

  datatype Kind = FirstSeen | Upgrade

  /** What leaves the machine or lands in the dead-letter directory. prior and current are the versions of
      an upgrade and empty for a first_seen. */
  datatype Event =
    | Posted(kind: Kind, prior: string, current: string)
    | Failed(kind: Kind, prior: string, current: string)
    | DeadLetter(kind: Kind)

  datatype Outcome = Delivered | Refused(noBuildKey: bool)

  /** One daemon startup: the gates, whether meta writes succeed, this build's version, the time stamp, and
      how each POST would end. */
  datatype Startup = Startup(tierNone: bool, hasBuildKey: bool, newInstallId: string, viewHasId: bool, writesWork: bool,
                             version: string, stamp: string, firstSeen: Outcome, upgrade: Outcome)

  type Meta = map<string, string>

  datatype State = State(meta: Meta, events: seq<Event>)

  function Get(meta: Meta, key: string): string {
    if key in meta then meta[key] else ""
  }

  function Set(meta: Meta, key: string, value: string, works: bool): Meta {
    if works then meta[key := value] else meta
  }

  function Attempts(meta: Meta, key: string): int {
    var n := D.Atoi(Get(meta, key));
    if n.Some? then n.value else 0
  }

  function AfterFailure(s: State, u: Startup, kind: Kind, key: string, prior: string, current: string): State {
    var n := Attempts(s.meta, key) + 1;
    State(Set(s.meta, key, D.Format(n), u.writesWork),
          s.events + [Failed(kind, prior, current)] + if n >= MAX_ATTEMPTS then [DeadLetter(kind)] else [])
  }

  predicate TriesFirstSeen(s: State) {
    Get(s.meta, FIRST_SEEN_AT) == "" && Attempts(s.meta, FIRST_SEEN_ATTEMPTS) < MAX_ATTEMPTS
  }

  function SendFirstSeen(s: State, u: Startup): State {
    if !TriesFirstSeen(s) then s
    else if u.firstSeen.Refused? then AfterFailure(s, u, FirstSeen, FIRST_SEEN_ATTEMPTS, "", "")
    else
      var meta := Set(s.meta, FIRST_SEEN_AT, u.stamp, u.writesWork);
      State(Set(meta, FIRST_SEEN_ATTEMPTS, "0", u.writesWork), s.events + [Posted(FirstSeen, "", "")])
  }

  /** A version change that has not used up its attempts. */
  predicate UpgradeDue(s: State, u: Startup) {
    var prior := Get(s.meta, LAST_VERSION);
    prior != "" && prior != u.version && Attempts(s.meta, UPGRADE_ATTEMPTS) < MAX_ATTEMPTS
  }

  function SendUpgrade(s: State, u: Startup, parses: string -> bool): State {
    var prior, firstSeen := Get(s.meta, LAST_VERSION), Get(s.meta, FIRST_SEEN_AT);
    if prior == "" then s.(meta := Set(s.meta, LAST_VERSION, u.version, u.writesWork))
    else if !UpgradeDue(s, u) || firstSeen == "" then s
    else if !parses(firstSeen) then s.(meta := Set(s.meta, FIRST_SEEN_AT, "", u.writesWork))
    else if u.upgrade.Refused? then AfterFailure(s, u, Upgrade, UPGRADE_ATTEMPTS, prior, u.version)
    else
      var meta := Set(s.meta, LAST_VERSION, u.version, u.writesWork);
      State(Set(meta, UPGRADE_ATTEMPTS, "0", u.writesWork), s.events + [Posted(Upgrade, prior, u.version)])
  }

  predicate PassesGates(u: Startup) {
    !u.tierNone && u.hasBuildKey && (u.viewHasId || u.writesWork)
  }

  function Start(s: State, u: Startup, parses: string -> bool): State {
    if !PassesGates(u) then s
    else
      var s1 := if u.viewHasId then s else s.(meta := s.meta[INSTALL_ID := u.newInstallId]);
      SendUpgrade(SendFirstSeen(s1, u), u, parses)
  }

  predicate FailedIn(events: seq<Event>, kind: Kind) {
    exists e :: e in events && e.Failed? && e.kind == kind
  }

  lemma FailedInParts(a: seq<Event>, b: seq<Event>)
    ensures forall kind :: FailedIn(a + b, kind) <==> FailedIn(a, kind) || FailedIn(b, kind)
  {
    assert forall e :: e in a + b <==> e in a || e in b;
  }

  lemma NothingFailed()
    ensures forall kind :: !FailedIn([], kind)
  {
  }

  /** What an attempt at first_seen leaves behind. */
  lemma FirstSeenEvents(s: State, u: Startup)
    ensures var s' := SendFirstSeen(s, u);
            && s.events <= s'.events && !FailedIn(s'.events[|s.events|..], Upgrade)
            && (FailedIn(s'.events[|s.events|..], FirstSeen) <==> TriesFirstSeen(s) && u.firstSeen.Refused?)
  {
    var tail := SendFirstSeen(s, u).events[|s.events|..];
    hide Attempts, Set;
    if TriesFirstSeen(s) && u.firstSeen.Refused? {
      assert tail[0] == Failed(FirstSeen, "", "");
    }
  }

  /** What an attempt at upgrade leaves behind. */
  lemma UpgradeEvents(s: State, u: Startup, parses: string -> bool)
    ensures var s' := SendUpgrade(s, u, parses);
            && s.events <= s'.events && !FailedIn(s'.events[|s.events|..], FirstSeen)
            && (FailedIn(s'.events[|s.events|..], Upgrade) <==> |s'.events| > |s.events| && u.upgrade.Refused?)
  {
    var s' := SendUpgrade(s, u, parses);
    var tail := s'.events[|s.events|..];
    hide Attempts, Set;
    if |s'.events| > |s.events| && u.upgrade.Refused? {
      assert tail[0].Failed? && tail[0].kind == Upgrade;
    }
  }

  datatype Error = NilError | FirstSeenError | UpgradeError | BothErrors

  class Pipeline {
    const parses: string -> bool  // time.Parse succeeds on the stored time stamp
    var meta: Meta
    var events: seq<Event>

    ghost function View(): State
      reads this
    {
      State(meta, events)
    }

    constructor (meta: Meta, parses: string -> bool)
      ensures View() == State(meta, []) && this.parses == parses
    {
      this.meta, this.parses, events := meta, parses, [];
    }

    method SetMeta(key: string, value: string, works: bool)
      modifies this`meta
      ensures meta == Set(old(meta), key, value, works)
    {
      if works {
        meta := meta[key := value];
      }
    }

    method MaybeSendFirstSeen(u: Startup) returns (err: bool)
      modifies this
      ensures View() == SendFirstSeen(old(View()), u)
      ensures err <==> TriesFirstSeen(old(View())) && u.firstSeen == Refused(true)
    {
      if Get(meta, FIRST_SEEN_AT) != "" {
        return false;
      }
      var attempts := Attempts(meta, FIRST_SEEN_ATTEMPTS);
      if attempts >= MAX_ATTEMPTS {
        return false;
      }
      if u.firstSeen.Delivered? {
        events := events + [Posted(FirstSeen, "", "")];
        SetMeta(FIRST_SEEN_AT, u.stamp, u.writesWork);
        SetMeta(FIRST_SEEN_ATTEMPTS, "0", u.writesWork);
        return false;
      }
      events := events + [Failed(FirstSeen, "", "")];
      attempts := Attempts(meta, FIRST_SEEN_ATTEMPTS) + 1;
      SetMeta(FIRST_SEEN_ATTEMPTS, D.Format(attempts), u.writesWork);
      if attempts >= MAX_ATTEMPTS {
        events := events + [DeadLetter(FirstSeen)];
      }
      return u.firstSeen.noBuildKey;
    }

    method MaybeSendUpgrade(u: Startup) returns (err: bool)
      modifies this
      ensures View() == SendUpgrade(old(View()), u, parses)
      ensures err <==> |events| > |old(events)| && u.upgrade == Refused(true)
    {
      var prior := Get(meta, LAST_VERSION);
      if prior == "" {
        SetMeta(LAST_VERSION, u.version, u.writesWork);
        return false;
      }
      if prior == u.version {
        return false;
      }
      var attempts := Attempts(meta, UPGRADE_ATTEMPTS);
      if attempts >= MAX_ATTEMPTS {
        return false;
      }
      var firstSeen := Get(meta, FIRST_SEEN_AT);
      if firstSeen == "" {
        return false;
      }
      if !parses(firstSeen) {
        SetMeta(FIRST_SEEN_AT, "", u.writesWork);
        return false;
      }
      if u.upgrade.Delivered? {
        events := events + [Posted(Upgrade, prior, u.version)];
        SetMeta(LAST_VERSION, u.version, u.writesWork);
        SetMeta(UPGRADE_ATTEMPTS, "0", u.writesWork);
        return false;
      }
      events := events + [Failed(Upgrade, prior, u.version)];
      attempts := Attempts(meta, UPGRADE_ATTEMPTS) + 1;
      SetMeta(UPGRADE_ATTEMPTS, D.Format(attempts), u.writesWork);
      if attempts >= MAX_ATTEMPTS {
        events := events + [DeadLetter(Upgrade)];
      }
      return u.upgrade.noBuildKey;
    }

    method SendInstallEventsIfDue(u: Startup) returns (err: Error)
      modifies this
      ensures View() == Start(old(View()), u, parses)
      ensures old(events) <= events
      ensures err.FirstSeenError? || err.BothErrors?
              <==> u.firstSeen == Refused(true) && FailedIn(events[|old(events)|..], FirstSeen)
      ensures err.UpgradeError? || err.BothErrors?
              <==> u.upgrade == Refused(true) && FailedIn(events[|old(events)|..], Upgrade)
    {
      hide SendFirstSeen, SendUpgrade, FailedIn;
      NothingFailed();
      assert events[|events|..] == [];
      if u.tierNone || !u.hasBuildKey {
        return NilError;
      }
      if !u.viewHasId {
        if !u.writesWork {
          return NilError;
        }
        meta := meta[INSTALL_ID := u.newInstallId];
      }
      ghost var s0 := View();
      var firstErr := MaybeSendFirstSeen(u);
      ghost var s1 := View();
      var upgradeErr := MaybeSendUpgrade(u);
      FirstSeenEvents(s0, u);
      UpgradeEvents(s1, u, parses);
      FailedInParts(s1.events[|old(events)|..], events[|s1.events|..]);
      assert events[|old(events)|..] == s1.events[|old(events)|..] + events[|s1.events|..];
      if firstErr && upgradeErr {
        return BothErrors;
      }
      return if firstErr then FirstSeenError else if upgradeErr then UpgradeError else NilError;
    }
  }

  // ----- whole runs: any sequence of startups

  function Run(s: State, us: seq<Startup>, parses: string -> bool): State {
    if us == [] then s else Start(Run(s, us[..|us| - 1], parses), us[|us| - 1], parses)
  }

  /** Failed POSTs of the kind since its last success. */
  function FailuresSince(events: seq<Event>, kind: Kind): nat {
    if events == [] then 0
    else
      var earlier, e := events[..|events| - 1], events[|events| - 1];
      if e.Posted? && e.kind == kind then 0
      else FailuresSince(earlier, kind) + if e.Failed? && e.kind == kind then 1 else 0
  }

  /** Dead letters of the kind since its last success. */
  function DeadLettersSince(events: seq<Event>, kind: Kind): nat {
    if events == [] then 0
    else
      var earlier, e := events[..|events| - 1], events[|events| - 1];
      if e.Posted? && e.kind == kind then 0
      else DeadLettersSince(earlier, kind) + if e.DeadLetter? && e.kind == kind then 1 else 0
  }

  /** The version that the last successful upgrade ended in. */
  function LastUpgrade(events: seq<Event>): Option<string> {
    if events == [] then None
    else
      var e := events[|events| - 1];
      if e.Posted? && e.kind == Upgrade then Some(e.current) else LastUpgrade(events[..|events| - 1])
  }

  /** What may come next after the earlier events. */
  predicate MayFollow(earlier: seq<Event>, e: Event) {
    match e
    case Posted(FirstSeen, _, _) => Posted(FirstSeen, "", "") !in earlier
    case Posted(Upgrade, prior, current) =>
      && Posted(FirstSeen, "", "") in earlier
      && prior != current && prior != ""
      && (LastUpgrade(earlier).Some? ==> LastUpgrade(earlier).value in {prior, ""})
    case Failed(kind, _, _) => FailuresSince(earlier, kind) < MAX_ATTEMPTS && DeadLettersSince(earlier, kind) == 0
    case DeadLetter(kind) => FailuresSince(earlier, kind) == MAX_ATTEMPTS && DeadLettersSince(earlier, kind) == 0
  }

  predicate WellFormed(events: seq<Event>) {
    events == [] || (WellFormed(events[..|events| - 1]) && MayFollow(events[..|events| - 1], events[|events| - 1]))
  }

  /** The counter in the meta table is the number of failures since the last success, and there is a dead
      letter exactly when it has reached the maximum. */
  predicate Counted(s: State, kind: Kind, key: string) {
    && Attempts(s.meta, key) == FailuresSince(s.events, kind) <= MAX_ATTEMPTS
    && DeadLettersSince(s.events, kind) == if FailuresSince(s.events, kind) == MAX_ATTEMPTS then 1 else 0
  }

  predicate Inv(s: State, parses: string -> bool) {
    && WellFormed(s.events)
    && (Get(s.meta, FIRST_SEEN_AT) != "" <==> Posted(FirstSeen, "", "") in s.events)
    && (Get(s.meta, FIRST_SEEN_AT) != "" ==> parses(Get(s.meta, FIRST_SEEN_AT)))
    && (LastUpgrade(s.events).Some? ==> LastUpgrade(s.events).value in {Get(s.meta, LAST_VERSION), ""})
    && Counted(s, FirstSeen, FIRST_SEEN_ATTEMPTS)
    && Counted(s, Upgrade, UPGRADE_ATTEMPTS)
  }

  lemma OneMore(events: seq<Event>, e: Event)
    ensures forall kind :: FailuresSince(events + [e], kind)
                           == if e.Posted? && e.kind == kind then 0
                              else FailuresSince(events, kind) + if e.Failed? && e.kind == kind then 1 else 0
    ensures forall kind :: DeadLettersSince(events + [e], kind)
                           == if e.Posted? && e.kind == kind then 0
                              else DeadLettersSince(events, kind) + if e.DeadLetter? && e.kind == kind then 1 else 0
    ensures LastUpgrade(events + [e]) == if e.Posted? && e.kind == Upgrade then Some(e.current) else LastUpgrade(events)
    ensures WellFormed(events + [e]) <==> WellFormed(events) && MayFollow(events, e)
    ensures forall f :: f in events + [e] <==> f in events || f == e
  {
    assert (events + [e])[..|events|] == events;
  }

  lemma AttemptsStored(meta: Meta, key: string, n: int)
    ensures Attempts(meta[key := D.Format(n)], key) == n
  {
    D.AtoiFormat(n);
  }

  lemma ZeroStored(meta: Meta, key: string)
    ensures Attempts(meta[key := "0"], key) == 0
  {
    assert D.Format(0) == "0";
    AttemptsStored(meta, key, 0);
  }

  lemma KeysDiffer()
    ensures FIRST_SEEN_AT != LAST_VERSION && FIRST_SEEN_AT != FIRST_SEEN_ATTEMPTS && FIRST_SEEN_AT != UPGRADE_ATTEMPTS
    ensures LAST_VERSION != FIRST_SEEN_ATTEMPTS && LAST_VERSION != UPGRADE_ATTEMPTS
    ensures FIRST_SEEN_ATTEMPTS != UPGRADE_ATTEMPTS
  {
    assert FIRST_SEEN_AT[0] == FIRST_SEEN_ATTEMPTS[0] == 'f' && LAST_VERSION[0] == 'l' && UPGRADE_ATTEMPTS[0] == 'u';
    assert |FIRST_SEEN_AT| == 13;
  }

  function CounterKey(kind: Kind): string {
    if kind == FirstSeen then FIRST_SEEN_ATTEMPTS else UPGRADE_ATTEMPTS
  }

  /** A failure, and the dead letter if it is the fifth, extend a well-formed history. */
  lemma FailureExtends(events: seq<Event>, failed: Event, kind: Kind, added: seq<Event>)
    requires WellFormed(events) && failed.Failed? && failed.kind == kind
    requires FailuresSince(events, kind) < MAX_ATTEMPTS && DeadLettersSince(events, kind) == 0
    requires added == [failed] + if FailuresSince(events, kind) + 1 >= MAX_ATTEMPTS then [DeadLetter(kind)] else []
    ensures WellFormed(events + added) && LastUpgrade(events + added) == LastUpgrade(events)
    ensures forall k :: FailuresSince(events + added, k) == FailuresSince(events, k) + if k == kind then 1 else 0
    ensures forall k :: DeadLettersSince(events + added, k)
                        == if k == kind && FailuresSince(events, k) + 1 == MAX_ATTEMPTS then 1 else DeadLettersSince(events, k)
    ensures Posted(FirstSeen, "", "") in events + added <==> Posted(FirstSeen, "", "") in events
  {
    hide WellFormed, FailuresSince, DeadLettersSince, LastUpgrade;
    OneMore(events, failed);
    if FailuresSince(events, kind) + 1 >= MAX_ATTEMPTS {
      OneMore(events + [failed], DeadLetter(kind));
      assert events + added == events + [failed] + [DeadLetter(kind)];
    } else {
      assert events + added == events + [failed];
    }
  }

  lemma OtherKeyUnchanged(meta: Meta, key: string, value: string, other: string)
    requires other != key
    ensures Get(meta[key := value], other) == Get(meta, other)
    ensures Attempts(meta[key := value], other) == Attempts(meta, other)
  {
  }

  /** After a success: the recorded value, the cleared counter, and any other key as before. */
  lemma TwoKeysSet(meta: Meta, key: string, value: string, counter: string, other: string)
    requires key != counter && other != key && other != counter
    ensures var m := meta[key := value][counter := "0"];
            && Get(m, key) == value && Attempts(m, counter) == 0
            && Get(m, other) == Get(meta, other) && Attempts(m, other) == Attempts(meta, other)
  {
    ZeroStored(meta[key := value], counter);
    hide Attempts;
    OtherKeyUnchanged(meta[key := value], counter, "0", other);
    OtherKeyUnchanged(meta, key, value, other);
  }

  lemma FailureKeepsInv(s: State, u: Startup, kind: Kind, prior: string, current: string, parses: string -> bool)
    requires Inv(s, parses) && u.writesWork && Attempts(s.meta, CounterKey(kind)) < MAX_ATTEMPTS
    ensures Inv(AfterFailure(s, u, kind, CounterKey(kind), prior, current), parses)
  {
    hide WellFormed, FailuresSince, DeadLettersSince, LastUpgrade, Attempts, Get;
    var key, failed := CounterKey(kind), Failed(kind, prior, current);
    var n := Attempts(s.meta, key) + 1;
    var s' := AfterFailure(s, u, kind, key, prior, current);
    var added := [failed] + if n >= MAX_ATTEMPTS then [DeadLetter(kind)] else [];
    assert s'.events == s.events + added && s'.meta == s.meta[key := D.Format(n)];
    FailureExtends(s.events, failed, kind, added);
    AttemptsStored(s.meta, key, n);
    KeysDiffer();
    OtherKeyUnchanged(s.meta, key, D.Format(n), FIRST_SEEN_AT);
    OtherKeyUnchanged(s.meta, key, D.Format(n), LAST_VERSION);
    OtherKeyUnchanged(s.meta, key, D.Format(n), if kind == FirstSeen then UPGRADE_ATTEMPTS else FIRST_SEEN_ATTEMPTS);
    hide AfterFailure;
  }

  lemma FirstSeenKeepsInv(s: State, u: Startup, parses: string -> bool)
    requires Inv(s, parses) && u.writesWork && u.stamp != "" && parses(u.stamp)
    ensures Inv(SendFirstSeen(s, u), parses)
  {
    hide WellFormed, FailuresSince, DeadLettersSince, LastUpgrade, Attempts;
    if TriesFirstSeen(s) {
      if u.firstSeen.Refused? {
        FailureKeepsInv(s, u, FirstSeen, "", "", parses);
      } else {
        KeysDiffer();
        OneMore(s.events, Posted(FirstSeen, "", ""));
        TwoKeysSet(s.meta, FIRST_SEEN_AT, u.stamp, FIRST_SEEN_ATTEMPTS, LAST_VERSION);
        TwoKeysSet(s.meta, FIRST_SEEN_AT, u.stamp, FIRST_SEEN_ATTEMPTS, UPGRADE_ATTEMPTS);
      }
    }
  }

  lemma UpgradeKeepsInv(s: State, u: Startup, parses: string -> bool)
    requires Inv(s, parses) && u.writesWork
    ensures Inv(SendUpgrade(s, u, parses), parses)
  {
    hide WellFormed, FailuresSince, DeadLettersSince, LastUpgrade, Attempts;
    var prior := Get(s.meta, LAST_VERSION);
    KeysDiffer();
    if prior == "" {
      OtherKeyUnchanged(s.meta, LAST_VERSION, u.version, FIRST_SEEN_AT);
      OtherKeyUnchanged(s.meta, LAST_VERSION, u.version, FIRST_SEEN_ATTEMPTS);
      OtherKeyUnchanged(s.meta, LAST_VERSION, u.version, UPGRADE_ATTEMPTS);
    } else if UpgradeDue(s, u) && Get(s.meta, FIRST_SEEN_AT) != "" {
      if u.upgrade.Refused? {
        FailureKeepsInv(s, u, Upgrade, prior, u.version, parses);
      } else {
        OneMore(s.events, Posted(Upgrade, prior, u.version));
        TwoKeysSet(s.meta, LAST_VERSION, u.version, UPGRADE_ATTEMPTS, FIRST_SEEN_AT);
        TwoKeysSet(s.meta, LAST_VERSION, u.version, UPGRADE_ATTEMPTS, FIRST_SEEN_ATTEMPTS);
      }
    }
  }

  /** Meta writes work, and the time stamp can be read back. */
  predicate Works(u: Startup, parses: string -> bool) {
    u.writesWork && u.stamp != "" && parses(u.stamp)
  }

  lemma StartKeepsInv(s: State, u: Startup, parses: string -> bool)
    requires Inv(s, parses) && Works(u, parses)
    ensures Inv(Start(s, u, parses), parses)
  {
    if PassesGates(u) {
      var s1 := if u.viewHasId then s else s.(meta := s.meta[INSTALL_ID := u.newInstallId]);
      assert Inv(s1, parses);
      FirstSeenKeepsInv(s1, u, parses);
      UpgradeKeepsInv(SendFirstSeen(s1, u), u, parses);
    }
  }

  lemma {:induction false} RunKeepsInv(s: State, us: seq<Startup>, parses: string -> bool)
    requires Inv(s, parses) && forall u :: u in us ==> Works(u, parses)
    ensures Inv(Run(s, us, parses), parses)
    decreases |us|
  {
    hide Inv, Works, Start;
    if us != [] {
      var prefix, u := us[..|us| - 1], us[|us| - 1];
      assert u in us && forall v :: v in prefix ==> v in us;
      RunKeepsInv(s, prefix, parses);
      StartKeepsInv(Run(s, prefix, parses), u, parses);
    }
  }

  /** The whole history is well formed, whatever the startups, versions and POST outcomes, as long as meta
      writes work and time stamps are readable: first_seen succeeds at most once; every successful upgrade
      comes after it, names two different versions, and starts from the version where the last one ended
      (or that one ended in an empty version); each kind fails at most five times between successes, with
      one dead letter at the fifth failure. */
  lemma HistoryWellFormed(us: seq<Startup>, parses: string -> bool)
    requires forall u :: u in us ==> Works(u, parses)
    ensures Inv(Run(State(map[], []), us, parses), parses)
  {
    assert Inv(State(map[], []), parses);
    hide Inv, Works;
    RunKeepsInv(State(map[], []), us, parses);
  }

  // ----- what each startup adds to the history

  /** The attempt at first_seen: once for each startup until one succeeds or five have failed. */
  function FirstSeenAttempt(events: seq<Event>, u: Startup): seq<Event> {
    if Posted(FirstSeen, "", "") in events || FailuresSince(events, FirstSeen) >= MAX_ATTEMPTS then []
    else if u.firstSeen.Delivered? then [Posted(FirstSeen, "", "")]
    else
      [Failed(FirstSeen, "", "")] + if FailuresSince(events, FirstSeen) == MAX_ATTEMPTS - 1 then [DeadLetter(FirstSeen)] else []
  }

  /** The attempt at upgrade: once for each startup at another version than the one on record, after
      first_seen and until five have failed since the last success. */
  function UpgradeAttempt(events: seq<Event>, prior: string, u: Startup): seq<Event> {
    if prior == "" || prior == u.version then []
    else if Posted(FirstSeen, "", "") !in events || FailuresSince(events, Upgrade) >= MAX_ATTEMPTS then []
    else if u.upgrade.Delivered? then [Posted(Upgrade, prior, u.version)]
    else
      [Failed(Upgrade, prior, u.version)]
      + if FailuresSince(events, Upgrade) == MAX_ATTEMPTS - 1 then [DeadLetter(Upgrade)] else []
  }

  lemma InvOfFirstSeen(s: State, parses: string -> bool)
    requires Inv(s, parses)
    ensures Attempts(s.meta, FIRST_SEEN_ATTEMPTS) == FailuresSince(s.events, FirstSeen) <= MAX_ATTEMPTS
    ensures Get(s.meta, FIRST_SEEN_AT) != "" <==> Posted(FirstSeen, "", "") in s.events
    ensures Get(s.meta, FIRST_SEEN_AT) != "" ==> parses(Get(s.meta, FIRST_SEEN_AT))
    ensures Attempts(s.meta, UPGRADE_ATTEMPTS) == FailuresSince(s.events, Upgrade) <= MAX_ATTEMPTS
  {
  }

  lemma FirstSeenAdds(s: State, u: Startup, parses: string -> bool)
    requires Inv(s, parses) && Works(u, parses)
    ensures var s' := SendFirstSeen(s, u);
            && s'.events == s.events + FirstSeenAttempt(s.events, u)
            && Get(s'.meta, LAST_VERSION) == Get(s.meta, LAST_VERSION)
  {
    InvOfFirstSeen(s, parses);
    KeysDiffer();
    hide Inv, Attempts, FailuresSince;
    var n := Attempts(s.meta, FIRST_SEEN_ATTEMPTS);
    OtherKeyUnchanged(s.meta, FIRST_SEEN_ATTEMPTS, D.Format(n + 1), LAST_VERSION);
    OtherKeyUnchanged(s.meta, FIRST_SEEN_AT, u.stamp, LAST_VERSION);
    OtherKeyUnchanged(s.meta[FIRST_SEEN_AT := u.stamp], FIRST_SEEN_ATTEMPTS, "0", LAST_VERSION);
    assert s.events + [] == s.events;
  }

  lemma UpgradeAdds(s: State, u: Startup, parses: string -> bool)
    requires Inv(s, parses) && u.writesWork
    ensures var s', prior := SendUpgrade(s, u, parses), Get(s.meta, LAST_VERSION);
            && s'.events == s.events + UpgradeAttempt(s.events, prior, u)
            && Get(s'.meta, LAST_VERSION)
               == if prior == "" || Posted(Upgrade, prior, u.version) in UpgradeAttempt(s.events, prior, u)
                  then u.version else prior
  {
    InvOfFirstSeen(s, parses);
    KeysDiffer();
    hide Inv, Attempts, FailuresSince;
    var n := Attempts(s.meta, UPGRADE_ATTEMPTS);
    OtherKeyUnchanged(s.meta, UPGRADE_ATTEMPTS, D.Format(n + 1), LAST_VERSION);
    OtherKeyUnchanged(s.meta[LAST_VERSION := u.version], UPGRADE_ATTEMPTS, "0", LAST_VERSION);
    assert s.events + [] == s.events;
  }

  /** From every state that a run with working meta writes can reach, the history alone, and the version on
      record, decide what a startup posts; and the version on record becomes the startup's own when there
      is none yet, or when its upgrade is delivered. */
  lemma StartupAdds(s: State, u: Startup, parses: string -> bool)
    requires Inv(s, parses) && Works(u, parses)
    ensures var s', prior := Start(s, u, parses), Get(s.meta, LAST_VERSION);
            if u.tierNone || !u.hasBuildKey then s' == s
            else
              var first := FirstSeenAttempt(s.events, u);
              var second := UpgradeAttempt(s.events + first, prior, u);
              && s'.events == s.events + first + second
              && Get(s'.meta, LAST_VERSION)
                 == if prior == "" || Posted(Upgrade, prior, u.version) in second then u.version else prior
  {
    if PassesGates(u) {
      IdIsNoCounter(s.meta, u.newInstallId);
      var s1 := if u.viewHasId then s else s.(meta := s.meta[INSTALL_ID := u.newInstallId]);
      assert Inv(s1, parses) by { IdKeepsInv(s, u.newInstallId, parses); }
      FirstSeenKeepsInv(s1, u, parses);
      FirstSeenAdds(s1, u, parses);
      UpgradeAdds(SendFirstSeen(s1, u), u, parses);
      hide Inv, Get, SendFirstSeen, SendUpgrade, FirstSeenAttempt, UpgradeAttempt;
    }
  }

  lemma IdKeepsInv(s: State, id: string, parses: string -> bool)
    requires Inv(s, parses)
    ensures Inv(s.(meta := s.meta[INSTALL_ID := id]), parses)
  {
    assert INSTALL_ID[0] == 'i' && FIRST_SEEN_ATTEMPTS[0] == 'f';
    IdIsNoCounter(s.meta, id);
    hide Get;
    OtherKeyUnchanged(s.meta, INSTALL_ID, id, FIRST_SEEN_ATTEMPTS);
    hide WellFormed, FailuresSince, DeadLettersSince, LastUpgrade, Attempts;
  }

  /** An install without a number gets the new one, for good; one that has a number keeps it. */
  lemma InstallIdIsStored(s: State, u: Startup, parses: string -> bool)
    requires PassesGates(u)
    ensures Get(Start(s, u, parses).meta, INSTALL_ID) == if u.viewHasId then Get(s.meta, INSTALL_ID) else u.newInstallId
  {
    assert INSTALL_ID[0] == 'i' && FIRST_SEEN_AT[0] == FIRST_SEEN_ATTEMPTS[0] == 'f' && LAST_VERSION[0] == 'l';
    assert UPGRADE_ATTEMPTS[0] == 'u';
    hide Attempts;
  }

  /** A stored time stamp that cannot be read is cleared by the next version change, so that the startup
      after it sends first_seen a second time. */
  lemma UnreadableStampSendsAgain(s: State, u: Startup, v: Startup, parses: string -> bool)
    requires PassesGates(u) && PassesGates(v) && u.viewHasId && v.viewHasId && u.writesWork && v.firstSeen.Delivered?
    requires Get(s.meta, FIRST_SEEN_AT) != "" && !parses(Get(s.meta, FIRST_SEEN_AT)) && UpgradeDue(s, u)
    requires Attempts(s.meta, FIRST_SEEN_ATTEMPTS) < MAX_ATTEMPTS
    ensures var s' := Start(Start(s, u, parses), v, parses);
            s.events + [Posted(FirstSeen, "", "")] <= s'.events
  {
    KeysDiffer();
    hide Attempts;
    OtherKeyUnchanged(s.meta, FIRST_SEEN_AT, "", FIRST_SEEN_ATTEMPTS);
    var s1 := Start(s, u, parses);
    assert s1 == s.(meta := s.meta[FIRST_SEEN_AT := ""]);
    var s2 := SendFirstSeen(s1, v);
    assert s2.events == s.events + [Posted(FirstSeen, "", "")];
    UpgradeEvents(s2, v, parses);
  }

  /** Without consent or without the key to sign with, nothing is ever sent or stored. */
  lemma {:induction false} NothingWithoutConsent(s: State, us: seq<Startup>, parses: string -> bool)
    requires forall u :: u in us ==> u.tierNone || !u.hasBuildKey
    ensures Run(s, us, parses) == s
    decreases |us|
  {
    if us != [] {
      var prefix, u := us[..|us| - 1], us[|us| - 1];
      assert u in us && forall v :: v in prefix ==> v in us;
      NothingWithoutConsent(s, prefix, parses);
    }
  }

  // ----- the budget of a version transition

  /** POSTs of the kind, whatever their outcome. */
  function Tries(events: seq<Event>, kind: Kind): nat {
    if events == [] then 0
    else
      var e := events[|events| - 1];
      Tries(events[..|events| - 1], kind) + if !e.DeadLetter? && e.kind == kind then 1 else 0
  }

  /** The startup finds another version on record than its own. */
  predicate Presents(prior: string, u: Startup) {
    PassesGates(u) && u.version != prior
  }

  function Presentations(prior: string, us: seq<Startup>): nat {
    if us == [] then 0
    else Presentations(prior, us[..|us| - 1]) + if Presents(prior, us[|us| - 1]) then 1 else 0
  }

  /** The install is known and a version is on record. */
  predicate Settled(s: State, prior: string) {
    Get(s.meta, FIRST_SEEN_AT) != "" && Get(s.meta, LAST_VERSION) == prior != ""
  }

  function Min(a: int, b: int): int { if a <= b then a else b }

  /** What a startup adds to the history while upgrade POSTs are refused. */
  function Refusal(s: State, prior: string, u: Startup): seq<Event> {
    var n := FailuresSince(s.events, Upgrade);
    if !Presents(prior, u) || n >= MAX_ATTEMPTS then []
    else [Failed(Upgrade, prior, u.version)] + if n + 1 == MAX_ATTEMPTS then [DeadLetter(Upgrade)] else []
  }

  lemma InvSays(s: State, parses: string -> bool)
    requires Inv(s, parses)
    ensures Attempts(s.meta, UPGRADE_ATTEMPTS) == FailuresSince(s.events, Upgrade) <= MAX_ATTEMPTS
    ensures FailuresSince(s.events, Upgrade) < MAX_ATTEMPTS ==> DeadLettersSince(s.events, Upgrade) == 0
    ensures Get(s.meta, FIRST_SEEN_AT) != "" ==> parses(Get(s.meta, FIRST_SEEN_AT))
  {
  }

  lemma RefusedUpgrade(s: State, prior: string, u: Startup, parses: string -> bool)
    requires Settled(s, prior) && u.writesWork && (u.version != prior ==> u.upgrade.Refused?)
    requires parses(Get(s.meta, FIRST_SEEN_AT))
    ensures var s', n := SendUpgrade(s, u, parses), Attempts(s.meta, UPGRADE_ATTEMPTS);
            && Settled(s', prior)
            && s'.events == s.events + if u.version == prior || n >= MAX_ATTEMPTS then []
                                       else [Failed(Upgrade, prior, u.version)]
                                            + if n + 1 >= MAX_ATTEMPTS then [DeadLetter(Upgrade)] else []
  {
    KeysDiffer();
    hide Attempts;
    var n := Attempts(s.meta, UPGRADE_ATTEMPTS);
    OtherKeyUnchanged(s.meta, UPGRADE_ATTEMPTS, D.Format(n + 1), FIRST_SEEN_AT);
    OtherKeyUnchanged(s.meta, UPGRADE_ATTEMPTS, D.Format(n + 1), LAST_VERSION);
  }

  lemma IdIsNoCounter(meta: Meta, id: string)
    ensures var m := meta[INSTALL_ID := id];
            && Get(m, FIRST_SEEN_AT) == Get(meta, FIRST_SEEN_AT) && Get(m, LAST_VERSION) == Get(meta, LAST_VERSION)
            && Attempts(m, UPGRADE_ATTEMPTS) == Attempts(meta, UPGRADE_ATTEMPTS)
  {
    assert INSTALL_ID[0] == 'i' && LAST_VERSION[0] == 'l' && UPGRADE_ATTEMPTS[0] == 'u' && FIRST_SEEN_AT[0] == 'f';
    hide Attempts;
    OtherKeyUnchanged(meta, INSTALL_ID, id, FIRST_SEEN_AT);
    OtherKeyUnchanged(meta, INSTALL_ID, id, LAST_VERSION);
    OtherKeyUnchanged(meta, INSTALL_ID, id, UPGRADE_ATTEMPTS);
  }

  lemma RefusedStart(s: State, prior: string, u: Startup, parses: string -> bool)
    requires Inv(s, parses) && Settled(s, prior) && u.writesWork && (Presents(prior, u) ==> u.upgrade.Refused?)
    ensures Start(s, u, parses).events == s.events + Refusal(s, prior, u) && Settled(Start(s, u, parses), prior)
  {
    InvSays(s, parses);
    hide Inv, Attempts, FailuresSince, DeadLettersSince, SendUpgrade, Get;
    if PassesGates(u) {
      IdIsNoCounter(s.meta, u.newInstallId);
      var s1 := if u.viewHasId then s else s.(meta := s.meta[INSTALL_ID := u.newInstallId]);
      assert Settled(s1, prior) && SendFirstSeen(s1, u) == s1 && s1.events == s.events;
      RefusedUpgrade(s1, prior, u, parses);
    }
  }

  lemma RefusalCounts(events: seq<Event>, added: seq<Event>, tail: seq<Event>)
    requires added == [] || (|added| == 1 && added[0].Failed? && added[0].kind == Upgrade)
             || (|added| == 2 && added[0].Failed? && added[0].kind == Upgrade && added[1] == DeadLetter(Upgrade))
    ensures FailuresSince(events + added, Upgrade) == FailuresSince(events, Upgrade) + Min(|added|, 1)
    ensures Tries(tail + added, Upgrade) == Tries(tail, Upgrade) + Min(|added|, 1)
  {
    hide WellFormed, MayFollow, LastUpgrade, DeadLettersSince, FailuresSince, Tries;
    if added == [] {
      assert events + added == events && tail + added == tail;
    } else {
      OneMore(events, added[0]);
      OneTry(tail, added[0]);
      if |added| == 1 {
        assert added == [added[0]];
      } else {
        OneMore(events + [added[0]], added[1]);
        OneTry(tail + [added[0]], added[1]);
        assert events + added == events + [added[0]] + [added[1]] && tail + added == tail + [added[0]] + [added[1]];
      }
    }
  }

  lemma OneTry(events: seq<Event>, e: Event)
    ensures Tries(events + [e], Upgrade) == Tries(events, Upgrade) + if !e.DeadLetter? && e.kind == Upgrade then 1 else 0
  {
    assert (events + [e])[..|events|] == events;
  }

  lemma OneMoreRefusal(start: seq<Event>, s: State, prior: string, u: Startup, parses: string -> bool)
    requires Inv(s, parses) && Settled(s, prior) && start <= s.events
    requires u.writesWork && (Presents(prior, u) ==> u.upgrade.Refused?)
    ensures var s', n := Start(s, u, parses), FailuresSince(s.events, Upgrade);
            var tries := if Presents(prior, u) && n < MAX_ATTEMPTS then 1 else 0;
            && start <= s'.events && Settled(s', prior)
            && Tries(s'.events[|start|..], Upgrade) == Tries(s.events[|start|..], Upgrade) + tries
            && FailuresSince(s'.events, Upgrade) == n + tries
  {
    RefusedStart(s, prior, u, parses);
    var added := Refusal(s, prior, u);
    RefusalCounts(s.events, added, s.events[|start|..]);
    assert (s.events + added)[|start|..] == s.events[|start|..] + added;
    hide Inv, Start, Settled, Presents, FailuresSince, Tries;
  }

  /** The POSTs that a transition gets while they are refused: not five, but what failures before it, of
      any transition since the last success, have left of five. */
  lemma {:induction false} TransitionGetsTheRest(s: State, prior: string, us: seq<Startup>, parses: string -> bool)
    requires Inv(s, parses) && Settled(s, prior)
    requires forall u :: u in us ==> Works(u, parses) && (Presents(prior, u) ==> u.upgrade.Refused?)
    ensures var s', n := Run(s, us, parses), FailuresSince(s.events, Upgrade);
            var tries := Min(Presentations(prior, us), MAX_ATTEMPTS - n);
            && s.events <= s'.events && Tries(s'.events[|s.events|..], Upgrade) == tries
            && FailuresSince(s'.events, Upgrade) == n + tries && Settled(s', prior)
    decreases |us|
  {
    InvSays(s, parses);
    hide Inv, Start, Settled, Works, Presents, Attempts, FailuresSince, DeadLettersSince;
    if us == [] {
      assert s.events[|s.events|..] == [];
      assert Tries([], Upgrade) == 0;
    } else {
      hide Tries;
      var prefix, u := us[..|us| - 1], us[|us| - 1];
      assert u in us && forall v :: v in prefix ==> v in us;
      TransitionGetsTheRest(s, prior, prefix, parses);
      RunKeepsInv(s, prefix, parses);
      assert u.writesWork by { WorksSays(u, parses); }
      OneMoreRefusal(s.events, Run(s, prefix, parses), prior, u, parses);
    }
  }

  lemma WorksSays(u: Startup, parses: string -> bool)
    requires Works(u, parses)
    ensures u.writesWork
  {
  }

  /** So a transition gets a fresh budget of five exactly when no upgrade POST has failed since the last
      success, which the stored counter tells. */
  lemma BudgetIsFreshIff(s: State, prior: string, us: seq<Startup>, parses: string -> bool)
    requires Inv(s, parses) && Settled(s, prior) && Presentations(prior, us) >= MAX_ATTEMPTS
    requires forall u :: u in us ==> Works(u, parses) && (Presents(prior, u) ==> u.upgrade.Refused?)
    ensures s.events <= Run(s, us, parses).events
    ensures Tries(Run(s, us, parses).events[|s.events|..], Upgrade) == MAX_ATTEMPTS
            <==> FailuresSince(s.events, Upgrade) == 0
    ensures FailuresSince(s.events, Upgrade) == 0 <==> Attempts(s.meta, UPGRADE_ATTEMPTS) == 0
  {
    TransitionGetsTheRest(s, prior, us, parses);
    InvSays(s, parses);
    hide Run, Tries, FailuresSince, Attempts, Inv, Settled, Presentations;
  }

  lemma {:induction false} RunConcat(s: State, a: seq<Startup>, b: seq<Startup>, parses: string -> bool)
    ensures Run(s, a + b, parses) == Run(Run(s, a, parses), b, parses)
    decreases |b|
  {
    hide Start;
    if b == [] {
      assert a + b == a;
    } else {
      assert (a + b)[..|a + b| - 1] == a + b[..|b| - 1];
      RunConcat(s, a, b[..|b| - 1], parses);
    }
  }

  const STAMP: string := "2026-01-01T00:00:00Z"

  /** A startup with all gates open. */
  function Boot(version: string, upgrade: Outcome): Startup {
    Startup(false, true, "id", true, true, version, STAMP, Delivered, upgrade)
  }

  lemma FirstBoot(parses: string -> bool)
    requires parses(STAMP)
    ensures var s := Run(State(map[], []), [Boot("1.0", Delivered)], parses);
            s.events == [Posted(FirstSeen, "", "")] && Settled(s, "1.0") && Inv(s, parses)
  {
    var u := Boot("1.0", Delivered);
    HistoryWellFormed([u], parses);
    KeysDiffer();
    var s0 := State(map[], []);
    assert Run(s0, [], parses) == s0 && [u][..0] == [];
    hide Inv;
    assert Run(s0, [u], parses) == Start(s0, u, parses);
    assert SendFirstSeen(s0, u).events == [Posted(FirstSeen, "", "")];
  }

  function Again(u: Startup, n: nat): seq<Startup> {
    if n == 0 then [] else Again(u, n - 1) + [u]
  }

  lemma {:induction false} AgainPresents(prior: string, u: Startup, n: nat)
    requires Presents(prior, u)
    ensures Presentations(prior, Again(u, n)) == n && forall v :: v in Again(u, n) ==> v == u
  {
    if n > 0 {
      AgainPresents(prior, u, n - 1);
      assert Again(u, n)[..|Again(u, n)| - 1] == Again(u, n - 1);
    }
  }

  /** Refused attempts to report version 1.1, on an install that was first at 1.0. */
  function Refusals(n: nat): seq<Startup> {
    [Boot("1.0", Delivered)] + Again(Boot("1.1", Refused(false)), n)
  }

  /** After the first startup at 1.0, the later ones present 1.1 to no avail. */
  lemma RefusalsPresent(n: nat, parses: string -> bool)
    requires parses(STAMP)
    ensures var us := Again(Boot("1.1", Refused(false)), n);
            && Presentations("1.0", us) == n
            && forall u :: u in us ==> Works(u, parses) && (Presents("1.0", u) ==> u.upgrade.Refused?)
  {
    AgainPresents("1.0", Boot("1.1", Refused(false)), n);
  }

  lemma RefusalsWork(n: nat, parses: string -> bool)
    requires parses(STAMP)
    ensures forall u :: u in Refusals(n) ==> Works(u, parses)
  {
    RefusalsPresent(n, parses);
  }

  lemma NoFailureYet()
    ensures FailuresSince([Posted(FirstSeen, "", "")], Upgrade) == 0
  {
    assert [Posted(FirstSeen, "", "")][..0] == [];
  }

  lemma AfterRefusals(n: nat, parses: string -> bool)
    requires parses(STAMP) && n <= MAX_ATTEMPTS
    ensures var s := Run(State(map[], []), Refusals(n), parses);
            Settled(s, "1.0") && FailuresSince(s.events, Upgrade) == n
  {
    hide Run, Inv, Settled, FailuresSince, Tries, Works, Presents, Presentations, Again, Boot;
    FirstBoot(parses);
    NoFailureYet();
    RefusalsPresent(n, parses);
    var empty, us := State(map[], []), Again(Boot("1.1", Refused(false)), n);
    var s1 := Run(empty, [Boot("1.0", Delivered)], parses);
    RunConcat(empty, [Boot("1.0", Delivered)], us, parses);
    TransitionGetsTheRest(s1, "1.0", us, parses);
  }

  /** For example, four refused attempts to report version 1.1 leave one for version 1.2: its first refusal
      is dead-lettered at once. */
  lemma OldFailuresSpendNewBudget(parses: string -> bool)
    requires parses(STAMP)
    ensures var empty, last := State(map[], []), Boot("1.2", Refused(false));
            var s := Run(empty, Refusals(4), parses);
            && DeadLettersSince(s.events, Upgrade) == 0 && Get(s.meta, LAST_VERSION) == "1.0"
            && Run(empty, Refusals(4) + [last], parses).events
               == s.events + [Failed(Upgrade, "1.0", "1.2"), DeadLetter(Upgrade)]
  {
    var empty, last := State(map[], []), Boot("1.2", Refused(false));
    AfterRefusals(4, parses);
    RefusalsWork(4, parses);
    HistoryWellFormed(Refusals(4), parses);
    RunConcat(empty, Refusals(4), [last], parses);
    var s := Run(empty, Refusals(4), parses);
    hide Refusals, FailuresSince, DeadLettersSince, Inv, Start;
    InvSays(s, parses);
    assert [last][..0] == [] && Run(s, [last], parses) == Start(s, last, parses);
    hide Run;
    RefusedStart(s, "1.0", last, parses);
    assert Presents("1.0", last);
    assert Refusal(s, "1.0", last) == [Failed(Upgrade, "1.0", "1.2"), DeadLetter(Upgrade)];
  }

  /** The upgrade event has been dead-lettered, and a version is on record. */
  predicate Silenced(meta: Meta) {
    Attempts(meta, UPGRADE_ATTEMPTS) >= MAX_ATTEMPTS && Get(meta, LAST_VERSION) != ""
  }

  predicate OnlyFirstSeen(events: seq<Event>) {
    forall e :: e in events ==> e.kind == FirstSeen
  }

  lemma SilencedStep(s: State, u: Startup, parses: string -> bool)
    requires Silenced(s.meta)
    ensures var s' := Start(s, u, parses);
            && Silenced(s'.meta) && Get(s'.meta, LAST_VERSION) == Get(s.meta, LAST_VERSION)
            && s.events <= s'.events && OnlyFirstSeen(s'.events[|s.events|..])
  {
    if PassesGates(u) {
      var s1 := if u.viewHasId then s else s.(meta := s.meta[INSTALL_ID := u.newInstallId]);
      assert INSTALL_ID[0] == 'i' && LAST_VERSION[0] == 'l' && UPGRADE_ATTEMPTS[0] == 'u';
      assert Silenced(s1.meta) && Get(s1.meta, LAST_VERSION) == Get(s.meta, LAST_VERSION);
      SilencedFirstSeen(s1, u);
      assert SendUpgrade(SendFirstSeen(s1, u), u, parses) == SendFirstSeen(s1, u);
    }
  }

  lemma SilencedFirstSeen(s: State, u: Startup)
    requires Silenced(s.meta)
    ensures var s' := SendFirstSeen(s, u);
            && Silenced(s'.meta) && Get(s'.meta, LAST_VERSION) == Get(s.meta, LAST_VERSION)
            && s.events <= s'.events && OnlyFirstSeen(s'.events[|s.events|..])
  {
    KeysDiffer();
    hide Attempts;
    var n := Attempts(s.meta, FIRST_SEEN_ATTEMPTS) + 1;
    var s' := SendFirstSeen(s, u);
    OtherKeyUnchanged(s.meta, FIRST_SEEN_ATTEMPTS, D.Format(n), UPGRADE_ATTEMPTS);
    OtherKeyUnchanged(s.meta, FIRST_SEEN_AT, u.stamp, UPGRADE_ATTEMPTS);
    OtherKeyUnchanged(s.meta[FIRST_SEEN_AT := u.stamp], FIRST_SEEN_ATTEMPTS, "0", UPGRADE_ATTEMPTS);
    assert s.events <= s'.events;
    var tail := s'.events[|s.events|..];
    assert tail == [] || tail == [Posted(FirstSeen, "", "")]
           || tail == [Failed(FirstSeen, "", "")] || tail == [Failed(FirstSeen, "", ""), DeadLetter(FirstSeen)];
  }

  /** Once the upgrade event is dead-lettered it stays silent for ever: a further version change does not
      get a fresh budget, since only a success resets the counter. */
  lemma {:induction false} DeadLetterIsFinal(s: State, us: seq<Startup>, parses: string -> bool)
    requires Silenced(s.meta)
    ensures var s' := Run(s, us, parses);
            && Silenced(s'.meta) && Get(s'.meta, LAST_VERSION) == Get(s.meta, LAST_VERSION)
            && s.events <= s'.events && OnlyFirstSeen(s'.events[|s.events|..])
    decreases |us|
  {
    hide Start, Silenced;
    if us != [] {
      var s1 := Run(s, us[..|us| - 1], parses);
      DeadLetterIsFinal(s, us[..|us| - 1], parses);
      SilencedStep(s1, us[|us| - 1], parses);
      var s2 := Run(s, us, parses);
      assert s2.events[|s.events|..] == s1.events[|s.events|..] + s2.events[|s1.events|..];
    }
  }

  /** With a failing database first_seen succeeds twice. */
  lemma FailingWritesRepeatFirstSeen(u: Startup, parses: string -> bool)
    requires PassesGates(u) && u.viewHasId && !u.writesWork && u.firstSeen.Delivered?
    ensures Run(State(map[], []), [u, u], parses).events == [Posted(FirstSeen, "", ""), Posted(FirstSeen, "", "")]
  {
    var s0 := State(map[], []);
    var s1 := Start(s0, u, parses);
    assert s1 == State(map[], [Posted(FirstSeen, "", "")]);
    assert [u, u][..1] == [u] && [u][..0] == [];
    assert Run(s0, [], parses) == s0;
    assert Run(s0, [u], parses) == s1;
  }
}
