/** The packet-threshold alert of internal/api/alerts.go: the decision for one
    tick, the state it carries, and how many alerts any run can send. */
module Alerts {

  /** Fifteen minutes in nanoseconds, the unit of the server's clock. */
  const COOLDOWN: int := 15 * 60 * 1_000_000_000

  /** `lastAt` is only meaningful while `firing`. */
  datatype Carried = Carried(firing: bool, lastAlert: nat, lastAt: int)

  /** What happens to the alert state: a tick that sees `total` packets against
      `threshold`, or a new alert configuration. */
  datatype Event =
    | Sample(total: nat, threshold: nat, now: int)
    | Configure

  /** `shouldFireAlert`: whether to notify, and the firing state to carry on. */
  function ShouldFire(firing: bool, lastAt: int, total: nat, threshold: nat, now: int): (bool, bool) {
    if total < threshold then (false, false)
    else if firing && now - lastAt < COOLDOWN then (false, true)
    else (true, true)
  }

  /** A tick with no threshold set does nothing. */
  predicate Fires(s: Carried, e: Event) {
    e.Sample? && e.threshold != 0 && ShouldFire(s.firing, s.lastAt, e.total, e.threshold, e.now).0
  }

  function After(s: Carried, e: Event): Carried {
    if e.Configure? then Carried(false, 0, 0)
    else if e.threshold == 0 then s
    else
      var (fire, firing) := ShouldFire(s.firing, s.lastAt, e.total, e.threshold, e.now);
      if fire then Carried(firing, e.total, e.now) else s.(firing := firing)
  }

  function AfterAll(s: Carried, events: seq<Event>): Carried
    decreases |events|
  {
    if events == [] then s else AfterAll(After(s, events[0]), events[1..])
  }

  /** When the alerts of a run are sent. */
  function AlertTimes(s: Carried, events: seq<Event>): seq<int>
    decreases |events|
  {
    if events == [] then []
    else (if Fires(s, events[0]) then [events[0].now] else []) + AlertTimes(After(s, events[0]), events[1..])
  }

  /** The fields of the server and the two methods that write them. */
  class Monitor {
    var alertFiring: bool
    var lastAlert: nat
    var lastAlertAt: int
    var sent: seq<int>

    constructor ()
      ensures State() == Carried(false, 0, 0) && sent == []
    {
      alertFiring, lastAlert, lastAlertAt, sent := false, 0, 0, [];
    }

    function State(): Carried
      reads this
    {
      Carried(alertFiring, lastAlert, lastAlertAt)
    }

    /** One tick of `alertLoop`, with `evaluateAlertThreshold` inside. */
    method Tick(total: nat, threshold: nat, now: int)
      modifies this
      ensures State() == After(old(State()), Sample(total, threshold, now))
      ensures sent == old(sent) + if Fires(old(State()), Sample(total, threshold, now)) then [now] else []
    {
      if threshold == 0 {
        return;
      }
      var (fire, firing) := ShouldFire(alertFiring, lastAlertAt, total, threshold, now);
      alertFiring := firing;
      if fire {
        lastAlert := total;
        lastAlertAt := now;
        sent := sent + [now];
      }
    }

    /** `updateAlertConfig` */
    method Update()
      modifies this
      ensures State() == After(old(State()), Configure)
      ensures sent == old(sent)
    {
      lastAlert := 0;
      alertFiring := false;
      lastAlertAt := 0;
    }

    method Serve(events: seq<Event>)
      modifies this
      ensures State() == AfterAll(old(State()), events)
      ensures sent == old(sent) + AlertTimes(old(State()), events)
    {
      for i := 0 to |events|
        invariant AfterAll(State(), events[i..]) == AfterAll(old(State()), events)
        invariant sent + AlertTimes(State(), events[i..]) == old(sent) + AlertTimes(old(State()), events)
      {
        var e := events[i];
        assert events[i..][0] == e && events[i..][1..] == events[i + 1..];
        match e {
          case Sample(total, threshold, now) => Tick(total, threshold, now);
          case Configure => Update();
        }
      }
      assert events[|events|..] == [];
    }
  }

  // ---------------------------------------------------------------------------
  // Bounds over runs

  /** Samples lie between `from` and `to` and never go back in time. */
  predicate InOrder(events: seq<Event>, from: int, to: int)
    decreases |events|
  {
    if events == [] then from <= to
    else if events[0].Configure? then InOrder(events[1..], from, to)
    else from <= events[0].now && InOrder(events[1..], events[0].now, to)
  }

  /** A tick at or above a threshold that is set. */
  predicate Across(e: Event) {
    e.Sample? && e.threshold != 0 && e.total >= e.threshold
  }

  /** What arms the alert again: a new configuration, or a tick below the line. */
  predicate Rearms(e: Event) {
    e.Configure? || (e.threshold != 0 && e.total < e.threshold)
  }

  /** How often a run crosses the line: ticks across it that are the first since the
      alert was armed. */
  function Crossings(armed: bool, events: seq<Event>): nat
    decreases |events|
  {
    if events == [] then 0
    else if Rearms(events[0]) then Crossings(true, events[1..])
    else if Across(events[0]) then (if armed then 1 else 0) + Crossings(false, events[1..])
    else Crossings(armed, events[1..])
  }

  lemma OrderBounds(events: seq<Event>, from: int, to: int)
    requires InOrder(events, from, to)
    ensures from <= to
    decreases |events|
  {
    if events != [] {
      OrderBounds(events[1..], if events[0].Configure? then from else events[0].now, to);
    }
  }

  /** How many alerts besides one per crossing the carried state allows until `to`. */
  function Allowance(s: Carried, from: int, to: int): int {
    (to - if s.firing then s.lastAt else from) / COOLDOWN
  }

  lemma {:induction false} AlertsWithinAllowance(s: Carried, events: seq<Event>, from: int, to: int)
    requires InOrder(events, from, to) && (s.firing ==> s.lastAt <= from)
    ensures |AlertTimes(s, events)| <= Crossings(!s.firing, events) + Allowance(s, from, to)
    decreases |events|
  {
    OrderBounds(events, from, to);
    if events != [] {
      var next := if events[0].Configure? then from else events[0].now;
      AlertsWithinAllowance(After(s, events[0]), events[1..], next, to);
      OrderBounds(events[1..], next, to);
    }
  }

  /** Every crossing is reported. */
  lemma {:induction false} CrossingsAlert(s: Carried, events: seq<Event>)
    ensures |AlertTimes(s, events)| >= Crossings(!s.firing, events)
    decreases |events|
  {
    if events != [] {
      CrossingsAlert(After(s, events[0]), events[1..]);
    }
  }

  /** Any run of ticks and configuration changes sends one alert per crossing, and at
      most one more per full quarter of an hour it lasts. */
  lemma AlertBound(events: seq<Event>, from: int, to: int)
    requires InOrder(events, from, to)
    ensures var sent := AlertTimes(Carried(false, 0, 0), events);
            Crossings(true, events) <= |sent| <= Crossings(true, events) + (to - from) / 900_000_000_000
  {
    AlertsWithinAllowance(Carried(false, 0, 0), events, from, to);
    CrossingsAlert(Carried(false, 0, 0), events);
  }

  /** Whatever the carried state, an alert is sent only at a tick across the line. */
  lemma {:induction false} OnlyAcrossAlerts(s: Carried, events: seq<Event>, time: int)
    requires time in AlertTimes(s, events)
    ensures exists e :: e in events && Across(e) && e.now == time
    decreases |events|
  {
    if Fires(s, events[0]) && events[0].now == time {
      assert events[0] in events && Across(events[0]);
    } else {
      OnlyAcrossAlerts(After(s, events[0]), events[1..], time);
      var e :| e in events[1..] && Across(e) && e.now == time;
      assert e in events;
    }
  }

  /** A run that stays below the line, or has no threshold set, sends nothing. */
  lemma IdleSendsNothing(s: Carried, events: seq<Event>)
    requires forall e :: e in events ==> !Across(e)
    ensures AlertTimes(s, events) == []
  {
    if AlertTimes(s, events) != [] {
      OnlyAcrossAlerts(s, events, AlertTimes(s, events)[0]);
    }
  }

  // ---------------------------------------------------------------------------
  // Which ticks alert

  const START := Carried(false, 0, 0)

  /** The server alerts at event `i` of a run from its start. */
  predicate AlertsAt(events: seq<Event>, i: nat)
    requires i < |events|
  {
    Fires(AfterAll(START, events[..i]), events[i])
  }

  lemma {:induction false} RunOn(s: Carried, events: seq<Event>, e: Event)
    ensures AfterAll(s, events + [e]) == After(AfterAll(s, events), e)
    ensures AlertTimes(s, events + [e]) == AlertTimes(s, events) + if Fires(AfterAll(s, events), e) then [e.now] else []
    decreases |events|
  {
    if events == [] {
      assert (events + [e])[1..] == [];
    } else {
      RunOn(After(s, events[0]), events[1..], e);
      assert (events + [e])[1..] == events[1..] + [e];
    }
  }

  /** The alerts sent are those of the alerting events, in order. */
  lemma AlertTimesGrow(events: seq<Event>, n: nat)
    requires n < |events|
    ensures AlertTimes(START, events[..n + 1]) ==
            AlertTimes(START, events[..n]) + if AlertsAt(events, n) then [events[n].now] else []
  {
    assert events[..n + 1] == events[..n] + [events[n]];
    RunOn(START, events[..n], events[n]);
  }

  /** The alert at `k` is the state of things until `n`: nothing has re-armed since. */
  predicate Stands(events: seq<Event>, k: nat, n: nat)
    requires k < n <= |events|
  {
    AlertsAt(events, k) && forall j :: k < j < n ==> !Rearms(events[j])
  }

  predicate Chronological(events: seq<Event>) {
    forall i, j :: 0 <= i < j < |events| && events[i].Sample? && events[j].Sample? ==> events[i].now <= events[j].now
  }

  /** The carried state remembers the latest standing alert. */
  ghost predicate Remembers(events: seq<Event>, n: nat)
    requires n <= |events|
  {
    var s := AfterAll(START, events[..n]);
    && (s.firing ==>
          exists k: nat | k < n ::
            Stands(events, k, n) && events[k].now == s.lastAt && events[k].total == s.lastAlert)
    && (forall k: nat | k < n :: Stands(events, k, n) ==> s.firing && events[k].now <= s.lastAt)
  }

  lemma {:induction false} StateRemembers(events: seq<Event>, n: nat)
    requires n <= |events| && Chronological(events)
    ensures Remembers(events, n)
    decreases n
  {
    if n == 0 {
      assert events[..0] == [];
    } else {
      StateRemembers(events, n - 1);
      RememberOn(events, n - 1);
    }
  }

  lemma RememberOn(events: seq<Event>, n: nat)
    requires n < |events| && Chronological(events) && Remembers(events, n)
    ensures Remembers(events, n + 1)
  {
    var s, e := AfterAll(START, events[..n]), events[n];
    var t := AfterAll(START, events[..n + 1]);
    assert events[..n + 1] == events[..n] + [e];
    RunOn(START, events[..n], e);
    if t.firing {
      if AlertsAt(events, n) {
        assert Stands(events, n, n + 1);
      } else {
        var k: nat :| k < n && Stands(events, k, n) && events[k].now == s.lastAt && events[k].total == s.lastAlert;
        assert Stands(events, k, n + 1);
      }
    }
    forall k: nat | k < n + 1 && Stands(events, k, n + 1) ensures t.firing && events[k].now <= t.lastAt {
      if k < n {
        assert Stands(events, k, n) && !Rearms(events[n]);
      }
    }
  }

  /** While an alert stands, the server has on record the time and the total of
      the latest alert that stands; a new configuration forgets both. */
  lemma RecordsLatestAlert(events: seq<Event>)
    requires Chronological(events)
    ensures var s := AfterAll(START, events);
            && (s.firing ==>
                  exists k: nat | k < |events| ::
                    && Stands(events, k, |events|) && events[k].now == s.lastAt && events[k].total == s.lastAlert
                    && forall j: nat | j < |events| :: Stands(events, j, |events|) ==> events[j].now <= events[k].now)
            && AfterAll(START, events + [Configure]) == Carried(false, 0, 0)
  {
    assert events[..|events|] == events;
    StateRemembers(events, |events|);
    RunOn(START, events, Configure);
  }

  /** A tick alerts exactly when it is across the line and every alert since the line
      was last crossed from below, or the configuration last set, is at least fifteen
      minutes old. */
  lemma AlertExactlyWhen(events: seq<Event>, i: nat)
    requires i < |events| && Chronological(events)
    ensures AlertsAt(events, i) <==>
            && events[i].Sample? && events[i].threshold != 0 && events[i].total >= events[i].threshold
            && forall k: nat | k < i :: Stands(events, k, i) ==> events[i].now - events[k].now >= 900_000_000_000
  {
    StateRemembers(events, i);
  }

  /** Every sample is at or above a threshold that is set. */
  predicate Stretch(events: seq<Event>) {
    forall e :: e in events ==> e.Sample? && e.threshold != 0 && e.threshold <= e.total
  }

  lemma {:induction false} StretchCrossesOnce(events: seq<Event>, armed: bool)
    requires Stretch(events)
    ensures Crossings(armed, events) == if armed && events != [] then 1 else 0
    decreases |events|
  {
    if events != [] {
      assert events[0] in events;
      StretchCrossesOnce(events[1..], false);
    }
  }

  /** A crossing is reported at once, and then at most once per cooldown. */
  lemma StretchBound(s: Carried, events: seq<Event>, to: int)
    requires events != [] && Stretch(events) && !s.firing && InOrder(events, events[0].now, to)
    ensures var sent := AlertTimes(s, events);
            && sent != [] && sent[0] == events[0].now
            && |sent| <= 1 + (to - events[0].now) / COOLDOWN
  {
    assert events[0] in events;
    AlertsWithinAllowance(s, events, events[0].now, to);
    StretchCrossesOnce(events, true);
  }

  /** Within a stretch consecutive alerts are at least one cooldown apart. */
  lemma {:induction false} StretchGaps(s: Carried, events: seq<Event>, from: int, to: int)
    requires Stretch(events) && InOrder(events, from, to)
    ensures var sent := AlertTimes(s, events);
            && (s.firing && sent != [] ==> sent[0] - s.lastAt >= COOLDOWN)
            && forall i :: 0 <= i < |sent| - 1 ==> sent[i + 1] - sent[i] >= COOLDOWN
    decreases |events|
  {
    if events != [] {
      var e := events[0];
      assert e in events;
      StretchGaps(After(s, e), events[1..], e.now, to);
      var rest := AlertTimes(After(s, e), events[1..]);
      var sent := AlertTimes(s, events);
      assert if Fires(s, e) then sent == [e.now] + rest else sent == rest;
    }
  }

  /** After a tick across the line the alert is armed and its last notification is
      less than one cooldown old. */
  lemma FreshAfterTick(s: Carried, e: Event)
    requires e.Sample? && e.threshold != 0 && e.threshold <= e.total && (s.firing ==> s.lastAt <= e.now)
    ensures var t := After(s, e); t.firing && 0 <= e.now - t.lastAt < COOLDOWN
  {
  }

  lemma {:induction false} LastAlertInPast(s: Carried, events: seq<Event>, from: int, to: int)
    requires InOrder(events, from, to) && (s.firing ==> s.lastAt <= from)
    ensures AfterAll(s, events).firing ==> AfterAll(s, events).lastAt <= to
    decreases |events|
  {
    if events != [] {
      var next := if events[0].Configure? then from else events[0].now;
      LastAlertInPast(After(s, events[0]), events[1..], next, to);
    }
  }

  /** The same at the end of any run that ends on such a tick. */
  lemma FreshAfterRun(events: seq<Event>, e: Event, from: int)
    requires e.Sample? && e.threshold != 0 && e.threshold <= e.total && InOrder(events, from, e.now)
    ensures var t := After(AfterAll(Carried(false, 0, 0), events), e);
            t.firing && 0 <= e.now - t.lastAt < COOLDOWN
  {
    LastAlertInPast(Carried(false, 0, 0), events, from, e.now);
    FreshAfterTick(AfterAll(Carried(false, 0, 0), events), e);
  }
}
