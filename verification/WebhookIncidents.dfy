/** The incident state machine behind the alert webhook (internal/notify/webhook.go:30-285). */
module WebhookIncidents {
  import opened Wrappers

  datatype Incident = Incident(openedAt: int, lastEvent: int, count: nat, escalated: nat, firstDetail: string)

  /** The alerts handed to delivery. The first three belong to the incident with that key. */
  datatype Alert =
    | Opened(key: string, count: nat, detail: string)
    | Escalated(key: string, count: nat, detail: string)
    | Resolved(key: string, count: nat, detail: string)
    | PanicAlert(project: string, detail: string)

  datatype Config = Config(escalateAfter: int, resolveAfter: int)

  datatype Sender = Sender(incidents: map<string, Incident>, alerts: seq<Alert>)

  function Key(kind: string, project: string): string {
    kind + ":" + project
  }

  predicate EscalationDue(cfg: Config, inc: Incident, now: int) {
    now - inc.openedAt >= cfg.escalateAfter * (inc.escalated + 1)
  }

  /** A non-panic event of the incident with the key. */
  function RecordEvent(s: Sender, cfg: Config, key: string, detail: string, now: int): Sender {
    if key !in s.incidents then
      Sender(s.incidents[key := Incident(now, now, 1, 0, detail)], s.alerts + [Opened(key, 1, detail)])
    else
      var inc := s.incidents[key];
      var inc' := inc.(count := inc.count + 1, lastEvent := now);
      if EscalationDue(cfg, inc, now) then
        Sender(s.incidents[key := inc'.(escalated := inc.escalated + 1)],
               s.alerts + [Escalated(key, inc'.count, detail)])
      else s.(incidents := s.incidents[key := inc'])
  }

  function Record(s: Sender, cfg: Config, kind: string, project: string, detail: string, now: int): Sender {
    if kind == "Panic" then s.(alerts := s.alerts + [PanicAlert(project, detail)])
    else RecordEvent(s, cfg, Key(kind, project), detail, now)
  }

  predicate Silent(s: Sender, cfg: Config, key: string, now: int) {
    key in s.incidents && now - s.incidents[key].lastEvent >= cfg.resolveAfter
  }

  /** The order in which the map's silent incidents come up is arbitrary, but each comes up once. */
  ghost predicate IsOrder(s: Sender, cfg: Config, now: int, order: seq<string>) {
    && (forall key :: key in order <==> Silent(s, cfg, key, now))
    && (forall i, j :: 0 <= i < j < |order| ==> order[i] != order[j])
  }

  function ResolvedAlerts(s: Sender, order: seq<string>): seq<Alert>
    requires forall key :: key in order ==> key in s.incidents
  {
    if order == [] then []
    else
      var key := order[|order| - 1];
      ResolvedAlerts(s, order[..|order| - 1]) + [Resolved(key, s.incidents[key].count, s.incidents[key].firstDetail)]
  }

  function CheckResolved(s: Sender, order: seq<string>): Sender
    requires forall key :: key in order ==> key in s.incidents
  {
    Sender(map key | key in s.incidents && key !in order :: s.incidents[key], s.alerts + ResolvedAlerts(s, order))
  }

  class WebhookSender {
    const cfg: Config
    const url: string
    var incidents: map<string, Incident>
    var alerts: seq<Alert>

    ghost function View(): Sender
      reads this
    {
      Sender(incidents, alerts)
    }

    constructor (url: string, cfg: Config)
      ensures View() == Sender(map[], []) && this.cfg == cfg && this.url == url
    {
      this.url, this.cfg := url, cfg;
      incidents, alerts := map[], [];
    }

    method RecordAnomaly(kind: string, project: string, detail: string, now: int)
      modifies this
      ensures View() == if url == "" then old(View()) else Record(old(View()), cfg, kind, project, detail, now)
    {
      if url == "" {
        return;
      }
      if kind == "Panic" {
        alerts := alerts + [PanicAlert(project, detail)];
        return;
      }
      var key := kind + ":" + project;
      if key !in incidents {
        incidents := incidents[key := Incident(now, now, 1, 0, detail)];
        alerts := alerts + [Opened(key, 1, detail)];
        return;
      }
      var inc := incidents[key];
      inc := inc.(count := inc.count + 1, lastEvent := now);
      var shouldEscalate := false;
      var sinceOpen := now - inc.openedAt;
      var nextEscalation := cfg.escalateAfter * (inc.escalated + 1);
      if sinceOpen >= nextEscalation {
        inc := inc.(escalated := inc.escalated + 1);
        shouldEscalate := true;
      }
      incidents := incidents[key := inc];
      if shouldEscalate {
        alerts := alerts + [Escalated(key, inc.count, detail)];
      }
    }

    /** Walks the incidents in an arbitrary order and takes out the silent ones. */
    method CheckResolvedIncidents(now: int) returns (ghost order: seq<string>)
      modifies this
      ensures url == "" ==> View() == old(View())
      ensures url != "" ==> IsOrder(old(View()), cfg, now, order) && View() == CheckResolved(old(View()), order)
    {
      order := [];
      if url == "" {
        return;
      }
      ghost var start := View();
      var left := incidents.Keys;
      var resolved: seq<(string, Incident)> := [];
      while left != {}
        invariant left <= incidents.Keys
        invariant alerts == start.alerts
        invariant forall key :: key in order <==> Silent(start, cfg, key, now) && key !in left
        invariant forall i, j :: 0 <= i < j < |order| ==> order[i] != order[j]
        invariant incidents == CheckResolved(start, order).incidents
        invariant |resolved| == |order|
        invariant forall i :: 0 <= i < |order| ==> resolved[i] == (order[i], start.incidents[order[i]])
        decreases left
      {
        var key :| key in left;
        left := left - {key};
        if now - incidents[key].lastEvent >= cfg.resolveAfter {
          resolved := resolved + [(key, incidents[key])];
          incidents := incidents - {key};
          order := order + [key];
        }
      }
      for i := 0 to |resolved|
        invariant incidents == CheckResolved(start, order).incidents
        invariant alerts == start.alerts + ResolvedAlerts(start, order[..i])
      {
        assert order[..i + 1][..i] == order[..i];
        var (key, inc) := resolved[i];
        alerts := alerts + [Resolved(key, inc.count, inc.firstDetail)];
      }
      assert order[..|order|] == order;
    }
  }

  // ----- whole runs

  datatype Op =
    | Event(kind: string, project: string, detail: string, now: int)
    | Check(now: int, order: seq<string>)

  /** A check is possible with any order of the incidents that are silent at that moment. */
  ghost predicate CanStep(s: Sender, cfg: Config, op: Op) {
    op.Check? ==> IsOrder(s, cfg, op.now, op.order)
  }

  ghost function Step(s: Sender, cfg: Config, op: Op): Sender
    requires CanStep(s, cfg, op)
  {
    match op
    case Event(kind, project, detail, now) => Record(s, cfg, kind, project, detail, now)
    case Check(now, order) => CheckResolved(s, order)
  }

  ghost predicate CanRun(cfg: Config, ops: seq<Op>)
    decreases |ops|, 0
  {
    ops == [] || (CanRun(cfg, ops[..|ops| - 1]) && CanStep(Run(cfg, ops[..|ops| - 1]), cfg, ops[|ops| - 1]))
  }

  ghost function Run(cfg: Config, ops: seq<Op>): Sender
    requires CanRun(cfg, ops)
    decreases |ops|, 1
  {
    if ops == [] then Sender(map[], []) else Step(Run(cfg, ops[..|ops| - 1]), cfg, ops[|ops| - 1])
  }

  // ----- opened and resolved alerts alternate, and no event is lost

  /** Opened minus resolved alerts for the key. */
  function OpenBalance(alerts: seq<Alert>, key: string): int {
    if alerts == [] then 0
    else
      var a := alerts[|alerts| - 1];
      OpenBalance(alerts[..|alerts| - 1], key)
      + if a.Opened? && a.key == key then 1 else if a.Resolved? && a.key == key then -1 else 0
  }

  function ResolvedEvents(alerts: seq<Alert>, key: string): nat {
    if alerts == [] then 0
    else
      var a := alerts[|alerts| - 1];
      ResolvedEvents(alerts[..|alerts| - 1], key) + if a.Resolved? && a.key == key then a.count else 0
  }

  function EventCount(ops: seq<Op>, key: string): nat {
    if ops == [] then 0
    else
      var op := ops[|ops| - 1];
      EventCount(ops[..|ops| - 1], key)
      + if op.Event? && op.kind != "Panic" && Key(op.kind, op.project) == key then 1 else 0
  }

  /** An incident is opened only when none is open for its key, and escalated or resolved only while one
      is: opened and resolved alerts alternate, beginning with opened. */
  predicate Alternates(alerts: seq<Alert>, key: string) {
    if alerts == [] then true
    else
      var earlier, a := alerts[..|alerts| - 1], alerts[|alerts| - 1];
      && Alternates(earlier, key)
      && (a.Opened? && a.key == key ==> OpenBalance(earlier, key) == 0)
      && ((a.Resolved? || a.Escalated?) && a.key == key ==> OpenBalance(earlier, key) == 1)
  }

  /** events is the number of events recorded for the key so far. */
  ghost predicate Accounted(s: Sender, key: string, events: nat) {
    && Alternates(s.alerts, key)
    && OpenBalance(s.alerts, key) == (if key in s.incidents then 1 else 0)
    && events == ResolvedEvents(s.alerts, key) + (if key in s.incidents then s.incidents[key].count else 0)
  }

  lemma OneMore(alerts: seq<Alert>, a: Alert, key: string)
    ensures OpenBalance(alerts + [a], key)
            == OpenBalance(alerts, key)
               + (if a.Opened? && a.key == key then 1 else if a.Resolved? && a.key == key then -1 else 0)
    ensures ResolvedEvents(alerts + [a], key)
            == ResolvedEvents(alerts, key) + (if a.Resolved? && a.key == key then a.count else 0)
    ensures Alternates(alerts + [a], key) <==>
            && Alternates(alerts, key)
            && (a.Opened? && a.key == key ==> OpenBalance(alerts, key) == 0)
            && ((a.Resolved? || a.Escalated?) && a.key == key ==> OpenBalance(alerts, key) == 1)
  {
    assert (alerts + [a])[..|alerts|] == alerts;
  }

  lemma RecordAccounted(s: Sender, cfg: Config, op: Op, key: string, events: nat)
    requires op.Event? && Accounted(s, key, events)
    ensures Accounted(Record(s, cfg, op.kind, op.project, op.detail, op.now), key,
                      events + if op.kind != "Panic" && Key(op.kind, op.project) == key then 1 else 0)
  {
    hide Key, EscalationDue, Alternates, OpenBalance, ResolvedEvents;
    var s' := Record(s, cfg, op.kind, op.project, op.detail, op.now);
    if |s'.alerts| > |s.alerts| {
      var a := s'.alerts[|s.alerts|];
      assert s'.alerts == s.alerts + [a];
      OneMore(s.alerts, a, key);
    }
  }

  lemma {:induction false} ResolutionAccounted(s: Sender, order: seq<string>, key: string, events: nat)
    requires Accounted(s, key, events)
    requires forall k :: k in order ==> k in s.incidents
    requires forall i, j :: 0 <= i < j < |order| ==> order[i] != order[j]
    ensures Accounted(CheckResolved(s, order), key, events)
    decreases |order|
  {
    if order == [] {
      assert s.alerts + [] == s.alerts;
    } else {
      var prefix, last := order[..|order| - 1], order[|order| - 1];
      assert forall k :: k in order <==> k in prefix || k == last;
      assert last !in prefix;
      ResolutionAccounted(s, prefix, key, events);
      var a := Resolved(last, s.incidents[last].count, s.incidents[last].firstDetail);
      OneMore(CheckResolved(s, prefix).alerts, a, key);
      assert CheckResolved(s, order).alerts == CheckResolved(s, prefix).alerts + [a];
    }
  }

  /** In every run, for every key: opened and resolved alerts alternate, an incident is open exactly when
      the last of them is an opened one, and every event is counted once, in the resolved alert of its
      incident or in the incident that is still open. */
  lemma {:induction false} EventsAccounted(cfg: Config, ops: seq<Op>, key: string)
    requires CanRun(cfg, ops)
    ensures Accounted(Run(cfg, ops), key, EventCount(ops, key))
    decreases |ops|
  {
    if ops != [] {
      var prefix, op := ops[..|ops| - 1], ops[|ops| - 1];
      EventsAccounted(cfg, prefix, key);
      var s := Run(cfg, prefix);
      match op
      case Event(_, _, _, _) => RecordAccounted(s, cfg, op, key, EventCount(prefix, key));
      case Check(now, order) => ResolutionAccounted(s, order, key, EventCount(prefix, key));
    }
  }

  // ----- escalation and resolution happen in time

  /** The events' clock does not go back; what the checks read does not matter. */
  ghost predicate EventsInOrder(ops: seq<Op>) {
    forall i, j :: 0 <= i < j < |ops| && ops[i].Event? && ops[j].Event? ==> ops[i].now <= ops[j].now
  }

  function Product(a: int, b: int): int { a * b }

  /** An incident has not been escalated more often than its age allows. */
  ghost predicate EscalatedInTime(cfg: Config, inc: Incident) {
    && inc.openedAt <= inc.lastEvent
    && Product(cfg.escalateAfter, inc.escalated) <= inc.lastEvent - inc.openedAt
  }

  ghost predicate NoLaterThan(s: Sender, ops: seq<Op>) {
    forall key :: key in s.incidents ==>
      exists op :: op in ops && op.Event? && op.now == s.incidents[key].lastEvent
  }

  lemma RecordInTime(s: Sender, cfg: Config, key: string, detail: string, now: int)
    requires forall k :: k in s.incidents ==> EscalatedInTime(cfg, s.incidents[k])
    requires key in s.incidents ==> s.incidents[key].lastEvent <= now
    ensures var s' := RecordEvent(s, cfg, key, detail, now);
            forall k :: k in s'.incidents ==> EscalatedInTime(cfg, s'.incidents[k])
  {
    if key in s.incidents {
      var inc := s.incidents[key];
      assert EscalatedInTime(cfg, inc);
      assert Product(cfg.escalateAfter, inc.escalated + 1) == cfg.escalateAfter * (inc.escalated + 1);
      hide Product;
    }
  }

  lemma StepInTime(s: Sender, cfg: Config, op: Op, prefix: seq<Op>, ops: seq<Op>)
    requires CanStep(s, cfg, op) && op in ops && forall o :: o in prefix ==> o in ops
    requires op.Event? ==> forall o :: o in prefix && o.Event? ==> o.now <= op.now
    requires NoLaterThan(s, prefix) && forall key :: key in s.incidents ==> EscalatedInTime(cfg, s.incidents[key])
    ensures var s' := Step(s, cfg, op);
            NoLaterThan(s', ops) && forall key :: key in s'.incidents ==> EscalatedInTime(cfg, s'.incidents[key])
  {
    hide Key, EscalationDue, EscalatedInTime, IsOrder, ResolvedAlerts;
    if op.Event? && op.kind != "Panic" {
      var key := Key(op.kind, op.project);
      if key in s.incidents {
        var e :| e in prefix && e.Event? && e.now == s.incidents[key].lastEvent;
      }
      RecordInTime(s, cfg, key, op.detail, op.now);
    }
  }

  /** In a run whose events come in order of time, an open incident has been escalated at most once for
      each full escalation period between its opening and its last event. */
  lemma {:induction false} EscalationsInTime(cfg: Config, ops: seq<Op>)
    requires CanRun(cfg, ops) && EventsInOrder(ops)
    ensures var s := Run(cfg, ops);
            NoLaterThan(s, ops) && forall key :: key in s.incidents ==> EscalatedInTime(cfg, s.incidents[key])
    decreases |ops|
  {
    if ops != [] {
      var prefix, op := ops[..|ops| - 1], ops[|ops| - 1];
      assert forall o :: o in prefix ==> o in ops;
      assert op in ops;
      EscalationsInTime(cfg, prefix);
      StepInTime(Run(cfg, prefix), cfg, op, prefix, ops);
    }
  }

  /** A check resolves exactly the incidents that have been silent long enough, each with its own count;
      the others stay as they are. */
  lemma {:induction false} CheckResolvesSilent(s: Sender, cfg: Config, now: int, order: seq<string>, key: string)
    requires IsOrder(s, cfg, now, order) && key in s.incidents
    ensures var s' := CheckResolved(s, order);
            && (key in s'.incidents <==> now - s.incidents[key].lastEvent < cfg.resolveAfter)
            && (key in s'.incidents ==> s'.incidents[key] == s.incidents[key])
            && s.alerts <= s'.alerts
            && (key !in s'.incidents <==>
                Resolved(key, s.incidents[key].count, s.incidents[key].firstDetail) in s'.alerts[|s.alerts|..])
  {
    AlertsForOrder(s, order, key);
  }

  lemma {:induction false} AlertsForOrder(s: Sender, order: seq<string>, key: string)
    requires key in s.incidents && forall k :: k in order ==> k in s.incidents
    ensures key in order <==> Resolved(key, s.incidents[key].count, s.incidents[key].firstDetail) in ResolvedAlerts(s, order)
  {
    if order != [] {
      AlertsForOrder(s, order[..|order| - 1], key);
      assert order == order[..|order| - 1] + [order[|order| - 1]];
    }
  }

  // ----- incidents and alerts by the history of calls

  predicate IsEventOf(op: Op, key: string) {
    op.Event? && op.kind != "Panic" && op.kind + ":" + op.project == key
  }

  /** The event that opened the key's incident, if one is open: the first since the last check that
      resolved one, or since the beginning. */
  function OpenedBy(ops: seq<Op>, key: string): Option<nat> {
    if ops == [] then None
    else
      var n := |ops| - 1;
      var earlier := OpenedBy(ops[..n], key);
      if IsEventOf(ops[n], key) then (if earlier.Some? then earlier else Some(n))
      else if ops[n].Check? && key in ops[n].order then None
      else earlier
  }

  /** When the key's last event was. */
  function LastEvent(ops: seq<Op>, key: string): int {
    if ops == [] then 0
    else
      var n := |ops| - 1;
      if IsEventOf(ops[n], key) then ops[n].now else LastEvent(ops[..n], key)
  }

  /** Escalation alerts for the key since its incident was opened. */
  function EscalationsSince(alerts: seq<Alert>, key: string): nat {
    if alerts == [] then 0
    else
      var a := alerts[|alerts| - 1];
      if a.Opened? && a.key == key then 0
      else EscalationsSince(alerts[..|alerts| - 1], key) + if a.Escalated? && a.key == key then 1 else 0
  }

  /** The key's incident is what the events since its opening, and the alerts, say. */
  ghost predicate ToldByHistory(s: Sender, ops: seq<Op>, key: string) {
    var i := OpenedBy(ops, key);
    if i.None? then key !in s.incidents
    else
      && i.value < |ops| && ops[i.value].Event? && key in s.incidents
      && s.incidents[key] == Incident(ops[i.value].now, LastEvent(ops, key),
                                      EventCountFrom(ops, i.value, key), EscalationsSince(s.alerts, key),
                                      ops[i.value].detail)
  }

  /** The key's events from number i on. */
  function EventCountFrom(ops: seq<Op>, i: nat, key: string): nat {
    if |ops| <= i then 0
    else EventCountFrom(ops[..|ops| - 1], i, key) + if IsEventOf(ops[|ops| - 1], key) then 1 else 0
  }

  lemma EscalationsOneMore(alerts: seq<Alert>, a: Alert, key: string)
    ensures EscalationsSince(alerts + [a], key)
            == if a.Opened? && a.key == key then 0
               else EscalationsSince(alerts, key) + if a.Escalated? && a.key == key then 1 else 0
  {
    assert (alerts + [a])[..|alerts|] == alerts;
  }

  lemma {:induction false} ResolvingEscalatesNothing(s: Sender, order: seq<string>, key: string)
    requires forall k :: k in order ==> k in s.incidents
    ensures EscalationsSince(s.alerts + ResolvedAlerts(s, order), key) == EscalationsSince(s.alerts, key)
  {
    if order == [] {
      assert s.alerts + [] == s.alerts;
    } else {
      var k := order[|order| - 1];
      var earlier := ResolvedAlerts(s, order[..|order| - 1]);
      var a := Resolved(k, s.incidents[k].count, s.incidents[k].firstDetail);
      ResolvingEscalatesNothing(s, order[..|order| - 1], key);
      EscalationsOneMore(s.alerts + earlier, a, key);
      assert s.alerts + (earlier + [a]) == s.alerts + earlier + [a];
    }
  }

  /** What an event does to the key's incident. */
  lemma EventOnIncident(s: Sender, cfg: Config, op: Op, key: string)
    requires op.Event?
    ensures var s' := Record(s, cfg, op.kind, op.project, op.detail, op.now);
            if !IsEventOf(op, key) then
              && (key in s'.incidents <==> key in s.incidents)
              && (key in s.incidents ==> s'.incidents[key] == s.incidents[key])
              && EscalationsSince(s'.alerts, key) == EscalationsSince(s.alerts, key)
            else if key !in s.incidents then
              key in s'.incidents && s'.incidents[key] == Incident(op.now, op.now, 1, 0, op.detail)
              && EscalationsSince(s'.alerts, key) == 0
            else
              var inc := s.incidents[key];
              var more := EscalationsSince(s'.alerts, key) - EscalationsSince(s.alerts, key);
              && more >= 0 && key in s'.incidents
              && s'.incidents[key] == inc.(count := inc.count + 1, lastEvent := op.now, escalated := inc.escalated + more)
  {
    hide EscalationsSince, EscalationDue;
    var s' := Record(s, cfg, op.kind, op.project, op.detail, op.now);
    if |s'.alerts| > |s.alerts| {
      EscalationsOneMore(s.alerts, s'.alerts[|s.alerts|], key);
      assert s'.alerts == s.alerts + [s'.alerts[|s.alerts|]];
    }
  }

  lemma OpenedInRange(ops: seq<Op>, key: string)
    ensures OpenedBy(ops, key).Some? ==> OpenedBy(ops, key).value < |ops| && ops[OpenedBy(ops, key).value].Event?
  {
  }

  /** In every run, for every key: the open incident is the one that the history of events and checks
      tells, with its opening time and detail, last event, number of events, and escalations alerted. */
  lemma {:induction false} IncidentByHistory(cfg: Config, ops: seq<Op>, key: string)
    requires CanRun(cfg, ops)
    ensures ToldByHistory(Run(cfg, ops), ops, key)
    decreases |ops|
  {
    if ops != [] {
      var n := |ops| - 1;
      var prefix, op, s := ops[..n], ops[n], Run(cfg, ops[..n]);
      IncidentByHistory(cfg, prefix, key);
      OpenedInRange(prefix, key);
      match op
      case Event(_, _, _, _) =>
        EventOnIncident(s, cfg, op, key);
        hide Record, CanRun, EscalationsSince, IsOrder;
        EventCountGrows(ops, n, key);
        if OpenedBy(prefix, key).Some? { EventCountGrows(ops, OpenedBy(prefix, key).value, key); }
      case Check(now, order) =>
        ResolvingEscalatesNothing(s, order, key);
        hide CanRun, EscalationsSince;
        if OpenedBy(prefix, key).Some? { EventCountGrows(ops, OpenedBy(prefix, key).value, key); }
    }
  }

  lemma EventCountGrows(ops: seq<Op>, i: nat, key: string)
    requires i < |ops|
    ensures EventCountFrom(ops, i, key)
            == EventCountFrom(ops[..|ops| - 1], i, key) + if IsEventOf(ops[|ops| - 1], key) then 1 else 0
    ensures EventCountFrom(ops[..|ops| - 1], |ops| - 1, key) == 0
  {
  }

  /** The alert for an event: opening if no incident of its key is open, and escalation, with the number of
      events so far, if it comes at least as many periods after the opening as there would then be
      escalations. */
  function AlertByHistory(cfg: Config, ops: seq<Op>, alerts: seq<Alert>, op: Op, key: string): seq<Alert>
    requires IsEventOf(op, key)
  {
    var i := OpenedBy(ops, key);
    OpenedInRange(ops, key);
    if i.None? then [Opened(key, 1, op.detail)]
    else if op.now - ops[i.value].now >= cfg.escalateAfter * (EscalationsSince(alerts, key) + 1) then
      [Escalated(key, EventCountFrom(ops, i.value, key) + 1, op.detail)]
    else []
  }

  lemma AlertTold(s: Sender, cfg: Config, ops: seq<Op>, op: Op, key: string)
    requires ToldByHistory(s, ops, key) && IsEventOf(op, key)
    ensures Record(s, cfg, op.kind, op.project, op.detail, op.now).alerts
            == s.alerts + AlertByHistory(cfg, ops, s.alerts, op, key)
  {
    AlertOfEvent(s, cfg, op, key);
    OpenedInRange(ops, key);
    var i := OpenedBy(ops, key);
    assert i.Some? ==> s.incidents[key].openedAt == ops[i.value].now
                       && s.incidents[key].count == EventCountFrom(ops, i.value, key)
                       && s.incidents[key].escalated == EscalationsSince(s.alerts, key);
    assert s.alerts + [] == s.alerts;
    hide OpenedBy, EventCountFrom, EscalationsSince, LastEvent, Record, IsEventOf;
  }

  /** At every moment of every run, an event that is no panic is alerted exactly as the history of events,
      checks and alerts says. */
  lemma AlertsByHistory(cfg: Config, ops: seq<Op>, op: Op, key: string)
    requires CanRun(cfg, ops) && IsEventOf(op, key)
    ensures var s := Run(cfg, ops);
            Record(s, cfg, op.kind, op.project, op.detail, op.now).alerts
            == s.alerts + AlertByHistory(cfg, ops, s.alerts, op, key)
  {
    hide ToldByHistory, Record, AlertByHistory, Run, CanRun, IsEventOf;
    IncidentByHistory(cfg, ops, key);
    AlertTold(Run(cfg, ops), cfg, ops, op, key);
  }

  /** The alert of an event, by the incident. */
  lemma AlertOfEvent(s: Sender, cfg: Config, op: Op, key: string)
    requires IsEventOf(op, key)
    ensures Record(s, cfg, op.kind, op.project, op.detail, op.now).alerts
            == s.alerts + if key !in s.incidents then [Opened(key, 1, op.detail)]
                          else if EscalationDue(cfg, s.incidents[key], op.now) then
                            [Escalated(key, s.incidents[key].count + 1, op.detail)]
                          else []
  {
    assert s.alerts + [] == s.alerts;
    hide EscalationDue;
  }

  /** A panic is always alerted, and alone. */
  lemma PanicIsAlerted(s: Sender, cfg: Config, project: string, detail: string, now: int)
    ensures Record(s, cfg, "Panic", project, detail, now) == s.(alerts := s.alerts + [PanicAlert(project, detail)])
  {
  }

  /** At every moment of every run, a check resolves a key's incident exactly if one is open and its last
      event is long enough ago; the alert has the number of its events and the detail of the first. */
  lemma ResolutionsByHistory(cfg: Config, ops: seq<Op>, now: int, order: seq<string>, key: string)
    requires CanRun(cfg, ops) && CanStep(Run(cfg, ops), cfg, Check(now, order))
    ensures key in order <==> OpenedBy(ops, key).Some? && now - LastEvent(ops, key) >= cfg.resolveAfter
    ensures var i := OpenedBy(ops, key);
            i.Some? ==>
              && i.value < |ops| && ops[i.value].Event?
              && (key in order <==>
                  Resolved(key, EventCountFrom(ops, i.value, key), ops[i.value].detail) in ResolvedAlerts(Run(cfg, ops), order))
  {
    IncidentByHistory(cfg, ops, key);
    OpenedInRange(ops, key);
    var s := Run(cfg, ops);
    if key in s.incidents { AlertsForOrder(s, order, key); }
    hide Run, CanRun, OpenedBy, EventCountFrom, EscalationsSince, LastEvent, ResolvedAlerts;
  }
}
