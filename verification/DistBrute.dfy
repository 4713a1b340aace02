/** Distributed brute force: failures against one account from too many different IPs. */
module DistBruteDetector {
  import opened Events
  import opened Windows
  import opened TargetText
  import opened Time
  import Feeds

  /** The different tags of the records, in order of first appearance. */
  function Unique(w: seq<Stamped<string>>): seq<string> {
    if w == [] then []
    else
      var before, tag := Unique(w[..|w| - 1]), w[|w| - 1].tag;
      if tag in before then before else before + [tag]
  }

  function Over(max: int): seq<Stamped<string>> -> bool {
    (w: seq<Stamped<string>>) => |Unique(w)| >= max
  }

  predicate Considered(ev: Event) { ev.kind == AuthFailed && ev.ip != "" && ev.account != "" }

  function HitOf(ev: Event): Hit<string> { Hit(ev.account, Stamped(ev.ts, ev.ip)) }

  method UniqueIps(records: seq<Stamped<string>>) returns (ips: seq<string>)
    ensures ips == Unique(records)
  {
    var seen: set<string> := {};
    ips := [];
    for i := 0 to |records|
      invariant ips == Unique(records[..i])
      invariant forall ip :: ip in seen <==> ip in ips
    {
      assert records[..i + 1][..i] == records[..i];
      if records[i].tag !in seen {
        seen := seen + {records[i].tag};
        ips := ips + [records[i].tag];
      }
    }
    assert records[..|records|] == records;
  }

  class Module {
    const maxIps: int
    const scanTime: Nanos
    var windows: map<string, seq<Stamped<string>>>
    var callCount: nat

    ghost function View(): Slot<string> reads this { Slot(windows, callCount) }

    constructor (maxIps: int, scanTime: Nanos)
      ensures this.maxIps == maxIps && this.scanTime == scanTime && View() == Slot(map[], 0)
    {
      this.maxIps, this.scanTime := maxIps, scanTime;
      windows, callCount := map[], 0;
    }

    method Handle(ev: Event) returns (alerts: seq<Alert>)
      modifies this
      ensures if Considered(ev) then View() == Slide(Over(maxIps), scanTime, old(View()), HitOf(ev))
              else View() == old(View())
      ensures alerts == if Considered(ev) && Alerts(Over(maxIps), scanTime, old(View()), HitOf(ev))
                        then [Alert("dist_brute_force", 55, NotifyOnly, ev.ts, ev.ip, ev.account)] else []
    {
      hide Trim, Nonempty, Unique;
      if ev.kind != AuthFailed || ev.ip == "" || ev.account == "" { return []; }
      var cutoff := ev.ts - scanTime;
      var current := TrimOld(if ev.account in windows then windows[ev.account] else [], cutoff);
      current := current + [Stamped(ev.ts, ev.ip)];
      windows := windows[ev.account := current];
      assert current == Current(old(View()), scanTime, HitOf(ev));
      callCount := callCount + 1;
      if callCount >= PRUNE_EVERY {
        callCount := 0;
        windows := PruneExpired(windows, cutoff);
      }
      var ips := UniqueIps(current);
      assert Over(maxIps)(current) == (|ips| >= maxIps);
      if |ips| < maxIps { return []; }
      windows := windows - {ev.account};
      alerts := [Alert("dist_brute_force", 55, NotifyOnly, ev.ts, ev.ip, ev.account)];
    }
  }

  function Tags(w: seq<Stamped<string>>): set<string> { set i | 0 <= i < |w| :: w[i].tag }

  lemma TagsSnoc(w: seq<Stamped<string>>)
    requires w != []
    ensures Tags(w) == Tags(w[..|w| - 1]) + {w[|w| - 1].tag}
  {
    var init := w[..|w| - 1];
    assert forall i :: 0 <= i < |init| ==> init[i] == w[i];
  }

  lemma NoTags()
    ensures Tags([]) == {}
  {
  }

  /** Unique lists every tag once: its length is the number of different tags. */
  lemma {:induction false} UniqueCounts(w: seq<Stamped<string>>)
    ensures forall tag :: tag in Unique(w) <==> tag in Tags(w)
    ensures forall i, j :: 0 <= i < j < |Unique(w)| ==> Unique(w)[i] != Unique(w)[j]
    ensures |Unique(w)| == |Tags(w)|
  {
    hide Tags;
    if w == [] {
      NoTags();
    } else {
      var before, tag := Tags(w[..|w| - 1]), w[|w| - 1].tag;
      UniqueCounts(w[..|w| - 1]);
      TagsSnoc(w);
      assert tag in before ==> before + {tag} == before;
    }
  }

  lemma TagsSuffix(w: seq<Stamped<string>>, k: nat)
    requires k <= |w|
    ensures Tags(w[k..]) <= Tags(w)
  {
    forall t | t in Tags(w[k..]) ensures t in Tags(w) {
      var i :| 0 <= i < |w[k..]| && w[k..][i].tag == t;
      assert w[k + i].tag == t;
    }
  }

  /** Dropping records never adds a tag, and one more record adds at most one. */
  lemma UniqueSuffix(w: seq<Stamped<string>>, k: nat)
    requires k <= |w|
    ensures |Unique(w[k..])| <= |Unique(w)|
  {
    hide Unique, Tags;
    UniqueCounts(w);
    UniqueCounts(w[k..]);
    TagsSuffix(w, k);
    SubsetSize(Tags(w[k..]), Tags(w));
  }

  lemma {:induction false} SubsetSize(a: set<string>, b: set<string>)
    requires a <= b
    ensures |a| <= |b|
  {
    if a != {} {
      var x :| x in a;
      SubsetSize(a - {x}, b - {x});
    }
  }

  /** With times in order, an event alerts exactly when it brings the number of different IPs
      within the window, counted since the last alert over the whole history, to the
      threshold. */
  lemma FiresAtThreshold(max: int, scan: Nanos, hits: seq<Hit<string>>, hit: Hit<string>)
    requires max >= 1 && Chronological(hits + [hit])
    ensures Alerts(Over(max), scan, Run(Over(max), scan, hits), hit)
        <==> |Unique(Retained(SinceAlert(Over(max), scan, hits, hit.key), hit.rec.ts - scan) + [hit.rec])| == max
  {
    hide Unique;
    AlertsAsDefined(Over(max), scan, hits, hit);
    StoredBelowThreshold(Over(max), scan, hits);
    HistoryTrim(Over(max), scan, hits, hit);
    var w := Window(Run(Over(max), scan, hits).windows, hit.key);
    var k := TrimSuffix(w, hit.rec.ts - scan);
    UniqueSuffix(w, k);
    UniqueOneMore(w[k..], hit.rec);
    UniqueEmpty();
  }

  lemma UniqueOneMore(w: seq<Stamped<string>>, rec: Stamped<string>)
    ensures |Unique(w + [rec])| <= |Unique(w)| + 1
  {
    assert (w + [rec])[..|w|] == w;
  }

  lemma UniqueEmpty()
    ensures Unique([]) == []
  {
  }

  // ---- over the events themselves ----

  function HitIn(ev: Event): Option<Hit<string>> { if Considered(ev) then Some(HitOf(ev)) else None }

  predicate AlertsAt(max: int, scan: Nanos, feed: Feeds.Feed, j: nat)
    requires j < |feed|
  {
    Feeds.AlertsAt(Over(max), scan, HitIn, feed, j)
  }

  predicate FailureFor(input: Option<Event>, account: string, since: Nanos) {
    && input.Some? && input.value.kind == AuthFailed && input.value.account == account
    && input.value.ip != "" && input.value.ts >= since
  }

  /** The IPs of the account's failures among the inputs from..to, not before a time. */
  function Ips(feed: Feeds.Feed, from: nat, to: nat, account: string, since: Nanos): set<string>
    requires to <= |feed|
  {
    set i | from <= i < to && FailureFor(feed[i], account, since) :: feed[i].value.ip
  }

  /** Those in the window of the event, with its own. */
  function IpsWith(feed: Feeds.Feed, from: nat, j: nat, ev: Event, scan: Nanos): set<string>
    requires j <= |feed|
  {
    Ips(feed, from, j, ev.account, ev.ts - scan) + {ev.ip}
  }

  /** The record that an input adds for the account, if any. */
  function RecordIn(input: Option<Event>, account: string): seq<Stamped<string>> {
    var hit := Feeds.Read(HitIn, input);
    if hit.Some? && hit.value.key == account then [hit.value.rec] else []
  }

  lemma {:induction false} IpsAreTags(feed: Feeds.Feed, from: nat, to: nat, account: string, since: Nanos)
    requires from <= to <= |feed| && account != ""
    ensures Tags(Retained(Feeds.Records(HitIn, feed, from, to, account), since))
         == Ips(feed, from, to, account, since)
  {
    if from < to {
      hide Retained, HitIn, FailureFor, Tags, Ips;
      var before, last := Feeds.Records(HitIn, feed, from, to - 1, account), RecordIn(feed[to - 1], account);
      IpsAreTags(feed, from, to - 1, account, since);
      assert Feeds.Records(HitIn, feed, from, to, account) == before + last;
      RetainedAppend(before, last, since);
      TagsAppend(Retained(before, since), Retained(last, since));
      OneTag(feed[to - 1], account, since);
      IpsNext(feed, from, to, account, since);
    } else {
      NoTags();
    }
  }

  lemma TagsAppend(a: seq<Stamped<string>>, b: seq<Stamped<string>>)
    ensures Tags(a + b) == Tags(a) + Tags(b)
  {
    var all := a + b;
    assert forall i :: 0 <= i < |a| ==> all[i] == a[i];
    assert forall i :: 0 <= i < |b| ==> all[|a| + i] == b[i];
  }

  lemma OneTag(input: Option<Event>, account: string, since: Nanos)
    requires account != ""
    ensures Tags(Retained(RecordIn(input, account), since))
         == if FailureFor(input, account, since) then {input.value.ip} else {}
  {
    hide Tags;
    var r := RecordIn(input, account);
    NoTags();
    if r != [] {
      assert r[..0] == [];
      TagsSnoc(r);
      assert Tags(r) == {r[0].tag};
      assert Retained(r, since) == if r[0].ts >= since then r else [];
    }
  }

  lemma IpsNext(feed: Feeds.Feed, from: nat, to: nat, account: string, since: Nanos)
    requires from < to <= |feed|
    ensures Ips(feed, from, to, account, since)
         == Ips(feed, from, to - 1, account, since)
            + if FailureFor(feed[to - 1], account, since) then {feed[to - 1].value.ip} else {}
  {
  }

  /** Whatever the events, as long as their times are in order: one alerts if and only if it is a
      failure with an IP and an account, and the different IPs of that account's failures in the window,
      since its last alert, are with its own exactly as many as the threshold. */
  lemma AlertsExactly(max: int, scan: Nanos, feed: Feeds.Feed, from: nat, j: nat)
    requires max >= 1 && Feeds.InOrder(feed) && from <= j < |feed| && feed[j].Some?
    requires from > 0 ==> AlertsAt(max, scan, feed, from - 1) && feed[from - 1].value.account == feed[j].value.account
    requires forall i :: from <= i < j && AlertsAt(max, scan, feed, i) ==>
               feed[i].value.account != feed[j].value.account
    ensures var ev := feed[j].value;
            AlertsAt(max, scan, feed, j) <==>
            && ev.kind == AuthFailed && ev.ip != "" && ev.account != ""
            && |IpsWith(feed, from, j, ev, scan)| == max
  {
    var ev := feed[j].value;
    hide IpsWith, Feeds.AlertsAt;
    if Considered(ev) {
      LastAlertHere(max, scan, feed, from, j);
      ConsideredAlerts(max, scan, feed, from, j, ev);
    }
  }

  lemma ConsideredAlerts(max: int, scan: Nanos, feed: Feeds.Feed, from: nat, j: nat, ev: Event)
    requires max >= 1 && Feeds.InOrder(feed) && from <= j < |feed| && feed[j] == Some(ev) && Considered(ev)
    requires Feeds.LastAlert(Over(max), scan, HitIn, feed, from, j, ev.account) && Feeds.KeepsTimes(HitIn)
    ensures AlertsAt(max, scan, feed, j)
       <==> |IpsWith(feed, from, j, ev, scan)| == max
  {
    Reads(ev);
    hide *;
    AlertsByUnique(max, scan, feed, from, j, ev);
    UniqueWith(feed, from, j, ev, scan);
  }

  lemma AlertsByUnique(max: int, scan: Nanos, feed: Feeds.Feed, from: nat, j: nat, ev: Event)
    requires max >= 1 && Feeds.InOrder(feed) && from <= j < |feed| && feed[j] == Some(ev) && Considered(ev)
    requires Feeds.LastAlert(Over(max), scan, HitIn, feed, from, j, ev.account) && Feeds.KeepsTimes(HitIn)
    ensures AlertsAt(max, scan, feed, j)
       <==> |Unique(Feeds.InWindow(HitIn, feed, from, j, scan, HitOf(ev)))| == max
  {
    hide *;
    AlertsThere(max, scan, feed, j, ev);
    HitAlerts(max, scan, feed, from, j, ev);
  }

  lemma HitAlerts(max: int, scan: Nanos, feed: Feeds.Feed, from: nat, j: nat, ev: Event)
    requires max >= 1 && Feeds.InOrder(feed) && from <= j < |feed| && feed[j] == Some(ev) && Considered(ev)
    requires Feeds.LastAlert(Over(max), scan, HitIn, feed, from, j, ev.account) && Feeds.KeepsTimes(HitIn)
    requires Chronological(Feeds.HitsOf(HitIn, feed[..j]) + [HitOf(ev)])
    ensures Alerts(Over(max), scan, Run(Over(max), scan, Feeds.HitsOf(HitIn, feed[..j])), HitOf(ev))
       <==> |Unique(Feeds.InWindow(HitIn, feed, from, j, scan, HitOf(ev)))| == max
  {
    Reads(ev);
    hide *;
    Feeds.WindowIsHistory(Over(max), scan, HitIn, feed, from, j, HitOf(ev));
    FiresInWindow(max, scan, Feeds.HitsOf(HitIn, feed[..j]), HitOf(ev),
                  Feeds.InWindow(HitIn, feed, from, j, scan, HitOf(ev)));
  }

  lemma FiresInWindow(max: int, scan: Nanos, hits: seq<Hit<string>>, hit: Hit<string>, w: seq<Stamped<string>>)
    requires max >= 1 && Chronological(hits + [hit])
    requires w == Retained(SinceAlert(Over(max), scan, hits, hit.key), hit.rec.ts - scan) + [hit.rec]
    ensures Alerts(Over(max), scan, Run(Over(max), scan, hits), hit)
       <==> |Unique(w)| == max
  {
    hide *;
    FiresAtThreshold(max, scan, hits, hit);
  }

  lemma Reads(ev: Event)
    requires Considered(ev)
    ensures ev.account != "" && Feeds.Read(HitIn, Some(ev)) == Some(HitOf(ev))
    ensures HitOf(ev) == Hit(ev.account, Stamped(ev.ts, ev.ip))
  {
  }

  lemma AlertsThere(max: int, scan: Nanos, feed: Feeds.Feed, j: nat, ev: Event)
    requires Feeds.InOrder(feed) && j < |feed| && feed[j] == Some(ev) && Considered(ev) && Feeds.KeepsTimes(HitIn)
    ensures var hits := Feeds.HitsOf(HitIn, feed[..j]);
            && Chronological(hits + [HitOf(ev)])
            && AlertsAt(max, scan, feed, j) == Alerts(Over(max), scan, Run(Over(max), scan, hits), HitOf(ev))
  {
    Reads(ev);
    hide Feeds.AlertsAt, Feeds.HitsOf, Feeds.InOrder, Feeds.KeepsTimes, Feeds.Read;
    hide Alerts, Run, Chronological, HitOf, HitIn;
    Feeds.AlertsByDefinition(Over(max), scan, HitIn, feed, j);
  }

  /** The alerts of an account are those of its key. */
  lemma LastAlertHere(max: int, scan: Nanos, feed: Feeds.Feed, from: nat, j: nat)
    requires from <= j < |feed| && feed[j].Some?
    requires from > 0 ==> AlertsAt(max, scan, feed, from - 1) && feed[from - 1].value.account == feed[j].value.account
    requires forall i :: from <= i < j && AlertsAt(max, scan, feed, i) ==>
               feed[i].value.account != feed[j].value.account
    ensures Feeds.LastAlert(Over(max), scan, HitIn, feed, from, j, feed[j].value.account)
    ensures Feeds.KeepsTimes(HitIn)
  {
    hide Alerts, Feeds.After;
  }

  lemma UniqueWith(feed: Feeds.Feed, from: nat, j: nat, ev: Event, scan: Nanos)
    requires from <= j <= |feed| && ev.account != ""
    ensures |Unique(Feeds.InWindow(HitIn, feed, from, j, scan, HitOf(ev)))|
         == |IpsWith(feed, from, j, ev, scan)|
  {
    hide *;
    UniqueCounts(Feeds.InWindow(HitIn, feed, from, j, scan, HitOf(ev)));
    TagsWith(feed, from, j, ev, scan);
  }

  lemma TagsWith(feed: Feeds.Feed, from: nat, j: nat, ev: Event, scan: Nanos)
    requires from <= j <= |feed| && ev.account != ""
    ensures Tags(Feeds.InWindow(HitIn, feed, from, j, scan, HitOf(ev)))
         == IpsWith(feed, from, j, ev, scan)
  {
    hide Tags, Ips, Retained, Feeds.Records, HitIn;
    var w := Retained(Feeds.Records(HitIn, feed, from, j, ev.account), ev.ts - scan);
    IpsAreTags(feed, from, j, ev.account, ev.ts - scan);
    TagsSnoc(w + [HitOf(ev).rec]);
    assert (w + [HitOf(ev).rec])[..|w|] == w;
  }
}
