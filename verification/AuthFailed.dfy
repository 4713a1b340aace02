/** Brute force: too many authentication failures of one IP in the window. */
module AuthFailedDetector {
  import opened Events
  import opened Windows
  import opened TargetText
  import opened Time
  import Feeds

  function Over(max: int): seq<Stamped<()>> -> bool {
    (w: seq<Stamped<()>>) => |w| >= max
  }

  predicate Considered(ev: Event) { ev.kind == AuthFailed && ev.ip != "" }

  function HitOf(ev: Event): Hit<()> { Hit(ev.ip, Stamped(ev.ts, ())) }

  class Module {
    const maxFailures: int
    const scanTime: Nanos
    var windows: map<string, seq<Stamped<()>>>
    var callCount: nat

    ghost function View(): Slot<()> reads this { Slot(windows, callCount) }

    constructor (maxFailures: int, scanTime: Nanos)
      ensures this.maxFailures == maxFailures && this.scanTime == scanTime && View() == Slot(map[], 0)
    {
      this.maxFailures, this.scanTime := maxFailures, scanTime;
      windows, callCount := map[], 0;
    }

    method Handle(ev: Event) returns (alerts: seq<Alert>)
      modifies this
      ensures if Considered(ev) then View() == Slide(Over(maxFailures), scanTime, old(View()), HitOf(ev))
              else View() == old(View())
      ensures alerts == if Considered(ev) && Alerts(Over(maxFailures), scanTime, old(View()), HitOf(ev))
                        then [Alert("auth_failed", 60, BlockIp, ev.ts, ev.ip, "")] else []
    {
      hide Trim, Nonempty;
      if ev.kind != AuthFailed || ev.ip == "" { return []; }
      var cutoff := ev.ts - scanTime;
      var current := TrimOld(if ev.ip in windows then windows[ev.ip] else [], cutoff);
      current := current + [Stamped(ev.ts, ())];
      windows := windows[ev.ip := current];
      assert current == Current(old(View()), scanTime, HitOf(ev));
      callCount := callCount + 1;
      if callCount >= PRUNE_EVERY {
        callCount := 0;
        windows := PruneExpired(windows, cutoff);
      }
      if |current| < maxFailures { return []; }
      windows := windows - {ev.ip};
      alerts := [Alert("auth_failed", 60, BlockIp, ev.ts, ev.ip, "")];
    }
  }

  /** With times in order, an event alerts exactly when it brings the failures of its IP
      within the window, counted since the last alert over the whole history, to the
      threshold: never before and never above it. */
  lemma FiresAtThreshold(max: int, scan: Nanos, hits: seq<Hit<()>>, hit: Hit<()>)
    requires max >= 1 && Chronological(hits + [hit])
    ensures Alerts(Over(max), scan, Run(Over(max), scan, hits), hit)
        <==> |Retained(SinceAlert(Over(max), scan, hits, hit.key), hit.rec.ts - scan)| + 1 == max
  {
    AlertsAsDefined(Over(max), scan, hits, hit);
    StoredBelowThreshold(Over(max), scan, hits);
    var s := Run(Over(max), scan, hits);
    var k := TrimSuffix(Window(s.windows, hit.key), hit.rec.ts - scan);
    HistoryTrim(Over(max), scan, hits, hit);
  }

  // ---- over the events themselves ----

  function HitIn(ev: Event): Option<Hit<()>> { if Considered(ev) then Some(HitOf(ev)) else None }

  predicate AlertsAt(max: int, scan: Nanos, feed: Feeds.Feed, j: nat)
    requires j < |feed|
  {
    Feeds.AlertsAt(Over(max), scan, HitIn, feed, j)
  }

  predicate FailureOf(input: Option<Event>, ip: string, since: Nanos) {
    input.Some? && input.value.kind == AuthFailed && input.value.ip == ip && input.value.ts >= since
  }

  /** The authentication failures of the IP among the inputs from..to, not before a time. */
  function Failures(feed: Feeds.Feed, from: nat, to: nat, ip: string, since: Nanos): set<nat>
    requires to <= |feed|
  {
    set i | from <= i < to && FailureOf(feed[i], ip, since)
  }

  lemma {:induction false} FailuresCounted(feed: Feeds.Feed, from: nat, to: nat, ip: string, since: Nanos)
    requires from <= to <= |feed| && ip != ""
    ensures |Retained(Feeds.Records(HitIn, feed, from, to, ip), since)|
         == |Failures(feed, from, to, ip, since)|
  {
    if from < to {
      hide Retained, Failures, HitIn, FailureOf;
      var before, last := Feeds.Records(HitIn, feed, from, to - 1, ip), RecordIn(feed[to - 1], ip);
      FailuresCounted(feed, from, to - 1, ip, since);
      assert Feeds.Records(HitIn, feed, from, to, ip) == before + last;
      RetainedAppend(before, last, since);
      OneCounted(feed[to - 1], ip, since);
      FailuresNext(feed, from, to, ip, since);
    }
  }

  /** The record that an input adds for the IP, if any. */
  function RecordIn(input: Option<Event>, ip: string): seq<Stamped<()>> {
    var hit := Feeds.Read(HitIn, input);
    if hit.Some? && hit.value.key == ip then [hit.value.rec] else []
  }

  lemma OneCounted(input: Option<Event>, ip: string, since: Nanos)
    requires ip != ""
    ensures |Retained(RecordIn(input, ip), since)|
         == if FailureOf(input, ip, since) then 1 else 0
  {
    var r := RecordIn(input, ip);
    if r != [] { assert r[..0] == []; }
  }

  lemma FailuresNext(feed: Feeds.Feed, from: nat, to: nat, ip: string, since: Nanos)
    requires from < to <= |feed|
    ensures |Failures(feed, from, to, ip, since)|
         == |Failures(feed, from, to - 1, ip, since)| + if FailureOf(feed[to - 1], ip, since) then 1 else 0
  {
    var before := Failures(feed, from, to - 1, ip, since);
    if FailureOf(feed[to - 1], ip, since) {
      assert Failures(feed, from, to, ip, since) == before + {to - 1};
    } else {
      assert Failures(feed, from, to, ip, since) == before;
    }
  }

  /** Whatever the events, as long as their times are in order: one alerts if and only if it is a
      failure with an IP, and with the failures of that IP in the window, since its last alert, it
      makes exactly as many as the threshold. */
  lemma AlertsExactly(max: int, scan: Nanos, feed: Feeds.Feed, from: nat, j: nat)
    requires max >= 1 && Feeds.InOrder(feed) && from <= j < |feed| && feed[j].Some?
    requires from > 0 ==> AlertsAt(max, scan, feed, from - 1) && feed[from - 1].value.ip == feed[j].value.ip
    requires forall i :: from <= i < j && AlertsAt(max, scan, feed, i) ==> feed[i].value.ip != feed[j].value.ip
    ensures var ev := feed[j].value;
            AlertsAt(max, scan, feed, j) <==>
            ev.kind == AuthFailed && ev.ip != "" && |Failures(feed, from, j, ev.ip, ev.ts - scan)| + 1 == max
  {
    hide Feeds.AlertsAt, Failures;
    var ev := feed[j].value;
    AlertsAreFailures(max, scan, feed, j);
    if Considered(ev) {
      LastAlertHere(max, scan, feed, from, j);
      FailureAlerts(max, scan, feed, from, j, ev);
    }
  }

  lemma AlertsAreFailures(max: int, scan: Nanos, feed: Feeds.Feed, j: nat)
    requires j < |feed|
    ensures AlertsAt(max, scan, feed, j) ==> feed[j].Some? && Considered(feed[j].value)
  {
    hide Alerts, Feeds.After;
  }

  /** The alerts of an IP are those of its key. */
  lemma LastAlertHere(max: int, scan: Nanos, feed: Feeds.Feed, from: nat, j: nat)
    requires from <= j < |feed| && feed[j].Some?
    requires from > 0 ==> AlertsAt(max, scan, feed, from - 1) && feed[from - 1].value.ip == feed[j].value.ip
    requires forall i :: from <= i < j && AlertsAt(max, scan, feed, i) ==> feed[i].value.ip != feed[j].value.ip
    ensures Feeds.LastAlert(Over(max), scan, HitIn, feed, from, j, feed[j].value.ip)
    ensures Feeds.KeepsTimes(HitIn)
  {
    hide Alerts, Feeds.After;
  }

  lemma FailureAlerts(max: int, scan: Nanos, feed: Feeds.Feed, from: nat, j: nat, ev: Event)
    requires max >= 1 && Feeds.InOrder(feed) && from <= j < |feed| && feed[j] == Some(ev) && Considered(ev)
    requires Feeds.LastAlert(Over(max), scan, HitIn, feed, from, j, ev.ip) && Feeds.KeepsTimes(HitIn)
    ensures AlertsAt(max, scan, feed, j)
       <==> |Failures(feed, from, j, ev.ip, ev.ts - scan)| + 1 == max
  {
    hide *;
    AlertsThere(max, scan, feed, j, ev);
    HitAlerts(max, scan, feed, from, j, ev);
    FailuresCounted(feed, from, j, ev.ip, ev.ts - scan);
  }

  lemma HitAlerts(max: int, scan: Nanos, feed: Feeds.Feed, from: nat, j: nat, ev: Event)
    requires max >= 1 && Feeds.InOrder(feed) && from <= j < |feed| && feed[j] == Some(ev) && Considered(ev)
    requires Feeds.LastAlert(Over(max), scan, HitIn, feed, from, j, ev.ip) && Feeds.KeepsTimes(HitIn)
    requires Chronological(Feeds.HitsOf(HitIn, feed[..j]) + [HitOf(ev)])
    ensures Alerts(Over(max), scan, Run(Over(max), scan, Feeds.HitsOf(HitIn, feed[..j])), HitOf(ev))
       <==> |Retained(Feeds.Records(HitIn, feed, from, j, ev.ip), ev.ts - scan)| + 1 == max
  {
    Reads(ev);
    hide *;
    Feeds.SinceLastAlert(Over(max), scan, HitIn, feed, from, j, ev.ip);
    FiresAtThreshold(max, scan, Feeds.HitsOf(HitIn, feed[..j]), HitOf(ev));
  }

  lemma Reads(ev: Event)
    requires Considered(ev)
    ensures ev.ip != "" && Feeds.Read(HitIn, Some(ev)) == Some(HitOf(ev)) && HitOf(ev) == Hit(ev.ip, Stamped(ev.ts, ()))
  {
  }

  lemma AlertsThere(max: int, scan: Nanos, feed: Feeds.Feed, j: nat, ev: Event)
    requires Feeds.InOrder(feed) && j < |feed| && feed[j] == Some(ev) && Considered(ev) && Feeds.KeepsTimes(HitIn)
    ensures ev.ip != ""
    ensures var hits := Feeds.HitsOf(HitIn, feed[..j]);
            && Chronological(hits + [HitOf(ev)])
            && AlertsAt(max, scan, feed, j) == Alerts(Over(max), scan, Run(Over(max), scan, hits), HitOf(ev))
  {
    Reads(ev);
    hide Feeds.AlertsAt, Feeds.HitsOf, Feeds.InOrder, Feeds.KeepsTimes, Feeds.Read;
    hide Alerts, Run, Chronological, HitOf, HitIn;
    Feeds.AlertsByDefinition(Over(max), scan, HitIn, feed, j);
  }
}
