/** Abuse of authenticated SASL connections: too many different IPs, or too many connections,
    of one account in the window; and which IP the suspension alert carries. */
module SaslDetector {
  import opened Events
  import opened Windows
  import opened TargetText
  import opened Countries
  import opened Time
  import Feeds

  datatype Config = Config(
    max: int, maxUniqueIps: int, scanTime: Nanos, allowed: seq<string>, geo: Option<string -> string>)

  /** The different non-empty IPs of the connections, in order of first appearance. */
  function IpsOf(w: seq<Stamped<string>>): seq<string> {
    if w == [] then []
    else
      var before, ip := IpsOf(w[..|w| - 1]), w[|w| - 1].tag;
      if ip == "" || ip in before then before else before + [ip]
  }

  predicate ManyIps(cfg: Config, w: seq<Stamped<string>>) { cfg.maxUniqueIps > 0 && |IpsOf(w)| >= cfg.maxUniqueIps }

  predicate ManyConnections(cfg: Config, w: seq<Stamped<string>>) { cfg.max > 0 && |w| >= cfg.max }

  function Over(cfg: Config): seq<Stamped<string>> -> bool {
    (w: seq<Stamped<string>>) => ManyIps(cfg, w) || ManyConnections(cfg, w)
  }

  predicate IsMailboxProtocol(process: string) { Upper(process) in {"IMAP", "POP3", "SOAP", "ACCOUNT"} }

  predicate Considered(ev: Event) {
    ev.kind == AuthSuccess && ev.account != "" && !IsMailboxProtocol(ev.process)
  }

  function HitOf(ev: Event): Hit<string> { Hit(ev.account, Stamped(ev.ts, ev.ip)) }

  predicate Allowed(cfg: Config, country: string) { country != "" && DetectorAllows(cfg.allowed, country) }

  /** The first IP of a country that is not allowed, if countries are configured; otherwise
      the fallback. */
  function TargetIp(cfg: Config, ips: seq<string>, fallback: string): string
    decreases |ips|
  {
    if cfg.geo.None? || cfg.allowed == [] || ips == [] then fallback
    else if !Allowed(cfg, cfg.geo.value(ips[0])) then ips[0]
    else TargetIp(cfg, ips[1..], fallback)
  }

  function AlertsFor(cfg: Config, w: seq<Stamped<string>>, ev: Event): seq<Alert> {
    var target := TargetIp(cfg, IpsOf(w), ev.ip);
    if ManyIps(cfg, w)
    then [Alert("sasl_connections", 90, SuspendAccount, ev.ts, target, ev.account)] + BlockAlerts(IpsOf(w), ev)
    else [Alert("sasl_connections", 65, SuspendAccount, ev.ts, target, ev.account)]
  }

  function BlockAlerts(ips: seq<string>, ev: Event): seq<Alert> {
    seq(|ips|, i requires 0 <= i < |ips| => Alert("sasl_connections", 90, BlockIp, ev.ts, ips[i], ev.account))
  }

  class Module {
    const cfg: Config
    var windows: map<string, seq<Stamped<string>>>
    var callCount: nat

    ghost function View(): Slot<string> reads this { Slot(windows, callCount) }

    constructor (cfg: Config)
      ensures this.cfg == cfg && View() == Slot(map[], 0)
    {
      this.cfg := cfg;
      windows, callCount := map[], 0;
    }

    method Handle(ev: Event) returns (alerts: seq<Alert>)
      modifies this
      ensures if Considered(ev) then View() == Slide(Over(cfg), cfg.scanTime, old(View()), HitOf(ev))
              else View() == old(View())
      ensures alerts == if Considered(ev) && Alerts(Over(cfg), cfg.scanTime, old(View()), HitOf(ev))
                        then AlertsFor(cfg, Current(old(View()), cfg.scanTime, HitOf(ev)), ev) else []
    {
      hide Windows.Trim, Nonempty, IpsOf, TargetIp, IsMailboxProtocol;
      if ev.kind != AuthSuccess || ev.account == "" || IsMailboxProtocol(ev.process) { return []; }
      var cutoff := ev.ts - cfg.scanTime;
      var current := TrimOld(if ev.account in windows then windows[ev.account] else [], cutoff);
      current := current + [Stamped(ev.ts, ev.ip)];
      windows := windows[ev.account := current];
      assert current == Current(old(View()), cfg.scanTime, HitOf(ev));
      callCount := callCount + 1;
      if callCount >= PRUNE_EVERY {
        callCount := 0;
        windows := PruneExpired(windows, cutoff);
      }
      assert Over(cfg)(current) == (ManyIps(cfg, current) || ManyConnections(cfg, current));
      var ips := UniqueIps(current);
      var target := PickTarget(ips, ev.ip);
      if cfg.maxUniqueIps > 0 && |ips| >= cfg.maxUniqueIps {
        windows := windows - {ev.account};
        alerts := BlockEach(ips, ev);
        alerts := [Alert("sasl_connections", 90, SuspendAccount, ev.ts, target, ev.account)] + alerts;
      } else if cfg.max > 0 && |current| >= cfg.max {
        windows := windows - {ev.account};
        alerts := [Alert("sasl_connections", 65, SuspendAccount, ev.ts, target, ev.account)];
      } else {
        alerts := [];
      }
    }

    /** The loop that adds a block of every IP of the window. */
    method BlockEach(ips: seq<string>, ev: Event) returns (alerts: seq<Alert>)
      ensures alerts == BlockAlerts(ips, ev)
    {
      alerts := [];
      for i := 0 to |ips|
        invariant alerts == BlockAlerts(ips[..i], ev)
      {
        alerts := alerts + [Alert("sasl_connections", 90, BlockIp, ev.ts, ips[i], ev.account)];
      }
      assert ips[..|ips|] == ips;
    }

    method PickTarget(ips: seq<string>, fallback: string) returns (target: string)
      ensures target == TargetIp(cfg, ips, fallback)
    {
      if cfg.geo.None? || cfg.allowed == [] { return fallback; }
      for i := 0 to |ips|
        invariant TargetIp(cfg, ips[i..], fallback) == TargetIp(cfg, ips, fallback)
      {
        assert ips[i..][0] == ips[i] && ips[i..][1..] == ips[i + 1..];
        if !Allowed(cfg, cfg.geo.value(ips[i])) { return ips[i]; }
      }
      target := fallback;
    }
  }

  method UniqueIps(conns: seq<Stamped<string>>) returns (ips: seq<string>)
    ensures ips == IpsOf(conns)
  {
    var seen: set<string> := {};
    ips := [];
    for i := 0 to |conns|
      invariant ips == IpsOf(conns[..i])
      invariant forall ip :: ip in seen <==> ip in ips
    {
      assert conns[..i + 1][..i] == conns[..i];
      var ip := conns[i].tag;
      if ip != "" && ip !in seen {
        seen := seen + {ip};
        ips := ips + [ip];
      }
    }
    assert conns[..|conns|] == conns;
  }

  // ---- over the events themselves ----

  function HitIn(ev: Event): Option<Hit<string>> { if Considered(ev) then Some(HitOf(ev)) else None }

  predicate AlertsAt(cfg: Config, feed: Feeds.Feed, j: nat)
    requires j < |feed|
  {
    Feeds.AlertsAt(Over(cfg), cfg.scanTime, HitIn, feed, j)
  }

  /** A success of the account over SMTP: not one of the mailbox protocols, in whatever case. */
  ghost predicate Connects(ev: Event, account: string) {
    && ev.kind == AuthSuccess && ev.account == account != ""
    && !SameUpToCase(ev.process, "IMAP") && !SameUpToCase(ev.process, "POP3")
    && !SameUpToCase(ev.process, "SOAP") && !SameUpToCase(ev.process, "ACCOUNT")
  }

  lemma ConnectsExact(ev: Event, account: string)
    ensures Connects(ev, account) <==> Considered(ev) && ev.account == account
  {
    hide Upper, SameUpToCase;
    UpperExact(ev.process, "IMAP");
    UpperExact(ev.process, "POP3");
    UpperExact(ev.process, "SOAP");
    UpperExact(ev.process, "ACCOUNT");
    NamesAreUpper();
  }

  lemma NamesAreUpper()
    ensures Upper("IMAP") == "IMAP" && Upper("POP3") == "POP3"
    ensures Upper("SOAP") == "SOAP" && Upper("ACCOUNT") == "ACCOUNT"
  {
  }

  /** The IPs of the account's connections among the inputs from..to, not before a time, in order. */
  ghost function Connections(feed: Feeds.Feed, from: nat, to: nat, account: string, since: Nanos): seq<string>
    requires from <= to <= |feed|
  {
    if from == to then [] else Connections(feed, from, to - 1, account, since) + IpIn(feed[to - 1], account, since)
  }

  ghost function IpIn(input: Option<Event>, account: string, since: Nanos): seq<string> {
    if input.Some? && Connects(input.value, account) && input.value.ts >= since then [input.value.ip] else []
  }

  function Tags(w: seq<Stamped<string>>): seq<string> { seq(|w|, i requires 0 <= i < |w| => w[i].tag) }

  /** The record that an input adds for the account, if any. */
  function RecordIn(input: Option<Event>, account: string): seq<Stamped<string>> {
    var hit := Feeds.Read(HitIn, input);
    if hit.Some? && hit.value.key == account then [hit.value.rec] else []
  }

  lemma {:induction false} ConnectionsAreTags(feed: Feeds.Feed, from: nat, to: nat, account: string, since: Nanos)
    requires from <= to <= |feed| && account != ""
    ensures Tags(Retained(Feeds.Records(HitIn, feed, from, to, account), since))
         == Connections(feed, from, to, account, since)
  {
    hide *;
    if from < to {
      ConnectionsAreTags(feed, from, to - 1, account, since);
      TagsNextInput(feed, from, to, account, since);
      ConnectionsNext(feed, from, to, account, since);
    } else {
      NoConnections(feed, from, account, since);
    }
  }

  lemma NoConnections(feed: Feeds.Feed, from: nat, account: string, since: Nanos)
    requires from <= |feed|
    ensures Tags(Retained(Feeds.Records(HitIn, feed, from, from, account), since))
         == Connections(feed, from, from, account, since)
  {
  }

  lemma TagsNextInput(feed: Feeds.Feed, from: nat, to: nat, account: string, since: Nanos)
    requires from < to <= |feed| && account != ""
    ensures Tags(Retained(Feeds.Records(HitIn, feed, from, to, account), since))
         == Tags(Retained(Feeds.Records(HitIn, feed, from, to - 1, account), since))
            + IpIn(feed[to - 1], account, since)
  {
    RecordsNext(feed, from, to, account);
    hide *;
    OneTag(feed[to - 1], account, since);
    TagsRetained(Feeds.Records(HitIn, feed, from, to - 1, account), RecordIn(feed[to - 1], account), since);
  }

  lemma TagsRetained(a: seq<Stamped<string>>, b: seq<Stamped<string>>, since: Nanos)
    ensures Tags(Retained(a + b, since))
         == Tags(Retained(a, since)) + Tags(Retained(b, since))
  {
    hide *;
    RetainedAppend(a, b, since);
    TagsAppend(Retained(a, since), Retained(b, since));
  }

  lemma ConnectionsNext(feed: Feeds.Feed, from: nat, to: nat, account: string, since: Nanos)
    requires from < to <= |feed|
    ensures Connections(feed, from, to, account, since)
         == Connections(feed, from, to - 1, account, since) + IpIn(feed[to - 1], account, since)
  {
    hide IpIn;
  }

  lemma RecordsNext(feed: Feeds.Feed, from: nat, to: nat, account: string)
    requires from < to <= |feed|
    ensures Feeds.Records(HitIn, feed, from, to, account)
         == Feeds.Records(HitIn, feed, from, to - 1, account) + RecordIn(feed[to - 1], account)
  {
    hide HitIn;
  }

  lemma TagsAppend(a: seq<Stamped<string>>, b: seq<Stamped<string>>)
    ensures Tags(a + b) == Tags(a) + Tags(b)
  {
  }

  lemma OneTag(input: Option<Event>, account: string, since: Nanos)
    requires account != ""
    ensures Tags(Retained(RecordIn(input, account), since))
         == IpIn(input, account, since)
  {
    if input.Some? { ConnectsExact(input.value, account); }
    hide Connects, Considered;
    var r := RecordIn(input, account);
    OneRetained(r, since);
    if r != [] { assert r == [Stamped(input.value.ts, input.value.ip)]; }
  }

  lemma OneRetained(r: seq<Stamped<string>>, since: Nanos)
    requires |r| <= 1
    ensures Tags(Retained(r, since)) == if r != [] && r[0].ts >= since then [r[0].tag] else []
  {
    if r != [] { assert r[..0] == []; }
  }

  /** The different IPs among them that are there. */
  ghost function Different(ips: seq<string>): set<string> { set ip | ip in ips && ip != "" }

  lemma {:induction false} IpsCounted(w: seq<Stamped<string>>)
    ensures |IpsOf(w)| == |Different(Tags(w))|
    ensures forall ip :: ip in IpsOf(w) <==> ip in Different(Tags(w))
  {
    if w != [] {
      var init, ip := w[..|w| - 1], w[|w| - 1].tag;
      IpsCounted(init);
      assert Tags(w) == Tags(init) + [ip];
      assert Different(Tags(w)) == if ip == "" then Different(Tags(init)) else Different(Tags(init)) + {ip};
      if ip in Different(Tags(init)) { assert Different(Tags(init)) + {ip} == Different(Tags(init)); }
    }
  }

  /** Too many different IPs, or too many connections; a limit of 0 or less does not apply. */
  ghost predicate TooMany(cfg: Config, ips: seq<string>) {
    (cfg.maxUniqueIps > 0 && |Different(ips)| >= cfg.maxUniqueIps) || (cfg.max > 0 && |ips| >= cfg.max)
  }

  lemma OverExact(cfg: Config, w: seq<Stamped<string>>)
    ensures Over(cfg)(w) <==> TooMany(cfg, Tags(w))
  {
    hide IpsOf, Different;
    IpsCounted(w);
  }

  lemma WindowTags(feed: Feeds.Feed, from: nat, j: nat, ev: Event, scan: Nanos)
    requires from <= j <= |feed| && ev.account != ""
    ensures Tags(Feeds.InWindow(HitIn, feed, from, j, scan, HitOf(ev)))
         == Connections(feed, from, j, ev.account, ev.ts - scan) + [ev.ip]
  {
    hide Retained, Feeds.Records, Connections;
    var w := Retained(Feeds.Records(HitIn, feed, from, j, ev.account), ev.ts - scan);
    ConnectionsAreTags(feed, from, j, ev.account, ev.ts - scan);
    assert Tags(w + [HitOf(ev).rec]) == Tags(w) + [ev.ip];
  }

  lemma LastAlertHere(cfg: Config, feed: Feeds.Feed, from: nat, j: nat)
    requires from <= j < |feed| && feed[j].Some?
    requires from > 0 ==> AlertsAt(cfg, feed, from - 1) && feed[from - 1].value.account == feed[j].value.account
    requires forall i :: from <= i < j && AlertsAt(cfg, feed, i) ==> feed[i].value.account != feed[j].value.account
    ensures Feeds.LastAlert(Over(cfg), cfg.scanTime, HitIn, feed, from, j, feed[j].value.account)
    ensures Feeds.KeepsTimes(HitIn)
  {
    hide Alerts, Feeds.After, IsMailboxProtocol;
  }

  /** Whatever the events, as long as their times are in order: one alerts if and only if it is a
      connection, and with those of its account in the window, since the last alert, there are too many
      different IPs or too many connections. */
  lemma AlertsExactly(cfg: Config, feed: Feeds.Feed, from: nat, j: nat)
    requires Feeds.InOrder(feed) && from <= j < |feed| && feed[j].Some?
    requires from > 0 ==> AlertsAt(cfg, feed, from - 1) && feed[from - 1].value.account == feed[j].value.account
    requires forall i :: from <= i < j && AlertsAt(cfg, feed, i) ==> feed[i].value.account != feed[j].value.account
    ensures var ev := feed[j].value;
            AlertsAt(cfg, feed, j) <==>
            && Connects(ev, ev.account)
            && TooMany(cfg, Connections(feed, from, j, ev.account, ev.ts - cfg.scanTime) + [ev.ip])
  {
    hide TooMany, Connections, Feeds.After, Alerts, Feeds.LastAlert, Connects, IsMailboxProtocol, HitOf;
    var ev := feed[j].value;
    ConnectsExact(ev, ev.account);
    if Considered(ev) {
      LastAlertHere(cfg, feed, from, j);
      ConnectionAlerts(cfg, feed, from, j, ev);
    }
  }

  lemma ConnectionAlerts(cfg: Config, feed: Feeds.Feed, from: nat, j: nat, ev: Event)
    requires Feeds.InOrder(feed) && from <= j < |feed| && feed[j] == Some(ev) && Considered(ev)
    requires Feeds.LastAlert(Over(cfg), cfg.scanTime, HitIn, feed, from, j, ev.account) && Feeds.KeepsTimes(HitIn)
    ensures AlertsAt(cfg, feed, j)
       <==> TooMany(cfg, Connections(feed, from, j, ev.account, ev.ts - cfg.scanTime) + [ev.ip])
  {
    hide Feeds.LastAlert, Feeds.KeepsTimes, Feeds.InWindow, Feeds.AlertsAt, Feeds.InOrder, TooMany, Connections, Over;
    hide IsMailboxProtocol, Feeds.After, Feeds.HitsOf;
    Feeds.AlertsInWindow(Over(cfg), cfg.scanTime, HitIn, feed, from, j, HitOf(ev));
    OverExact(cfg, Feeds.InWindow(HitIn, feed, from, j, cfg.scanTime, HitOf(ev)));
    WindowTags(feed, from, j, ev, cfg.scanTime);
  }

  // ---- the alerts ----

  /** The first appearance of a is before that of b. */
  ghost predicate Sooner(ips: seq<string>, a: string, b: string) {
    exists p :: 0 <= p < |ips| && ips[p] == a && b !in ips[..p + 1]
  }

  lemma SoonerLater(ips: seq<string>, more: string, a: string, b: string)
    requires Sooner(ips, a, b)
    ensures Sooner(ips + [more], a, b)
  {
    var p :| 0 <= p < |ips| && ips[p] == a && b !in ips[..p + 1];
    assert (ips + [more])[p] == a && (ips + [more])[..p + 1] == ips[..p + 1];
  }

  lemma SoonerThanNew(ips: seq<string>, a: string, b: string)
    requires a in ips && b !in ips
    ensures Sooner(ips, a, b)
  {
    var p :| 0 <= p < |ips| && ips[p] == a;
    assert forall x <- ips[..p + 1] :: x in ips;
  }

  lemma {:induction false} IpsInOrder(w: seq<Stamped<string>>)
    ensures forall i, k :: 0 <= i < k < |IpsOf(w)| ==> Sooner(Tags(w), IpsOf(w)[i], IpsOf(w)[k])
  {
    hide Sooner, Different, Tags;
    if w != [] {
      var init, ip := w[..|w| - 1], w[|w| - 1].tag;
      var ips := IpsOf(init);
      IpsInOrder(init);
      IpsCounted(init);
      TagsNext(w);
      forall i, k | 0 <= i < k < |IpsOf(w)| ensures Sooner(Tags(w), IpsOf(w)[i], IpsOf(w)[k]) {
        if k == |ips| { NewIp(init, ip, ips[i]); }
        SoonerLater(Tags(init), ip, IpsOf(w)[i], IpsOf(w)[k]);
      }
    }
  }

  lemma TagsNext(w: seq<Stamped<string>>)
    requires w != []
    ensures Tags(w) == Tags(w[..|w| - 1]) + [w[|w| - 1].tag]
  {
  }

  lemma NewIp(w: seq<Stamped<string>>, ip: string, other: string)
    requires ip != "" && ip !in IpsOf(w) && other in IpsOf(w)
    ensures Sooner(Tags(w), other, ip)
  {
    hide Sooner, IpsOf, Tags;
    IpsCounted(w);
    SoonerThanNew(Tags(w), other, ip);
  }

  /** For the connections that crossed a threshold: first the suspension of the account; and, when there
      were too many different IPs, a block of each of them, once, in order of first appearance. */
  lemma AlertsListed(cfg: Config, w: seq<Stamped<string>>, ev: Event)
    ensures var alerts, ips := AlertsFor(cfg, w, ev), Tags(w);
            var many := cfg.maxUniqueIps > 0 && |Different(ips)| >= cfg.maxUniqueIps;
            && |alerts| == (if many then 1 + |Different(ips)| else 1)
            && alerts[0].(ip := "")
               == Alert("sasl_connections", if many then 90 else 65, SuspendAccount, ev.ts, "", ev.account)
            && (forall i :: 1 <= i < |alerts| ==>
                  && alerts[i] == Alert("sasl_connections", 90, BlockIp, ev.ts, alerts[i].ip, ev.account)
                  && alerts[i].ip in Different(ips))
            && (many ==> forall ip <- Different(ips) :: exists i :: 1 <= i < |alerts| && alerts[i].ip == ip)
            && (forall i, k :: 1 <= i < k < |alerts| ==> Sooner(ips, alerts[i].ip, alerts[k].ip))
  {
    hide IpsOf, Different, Sooner, TargetIp;
    IpsCounted(w);
    IpsInOrder(w);
    var alerts, found := AlertsFor(cfg, w, ev), IpsOf(w);
    if ManyIps(cfg, w) {
      assert forall i :: 1 <= i < |alerts| ==> alerts[i].ip == found[i - 1];
      forall ip | ip in Different(Tags(w)) ensures exists i :: 1 <= i < |alerts| && alerts[i].ip == ip {
        var k :| 0 <= k < |found| && found[k] == ip;
        assert alerts[k + 1].ip == ip;
      }
    }
  }

  // ---- the target and the enforcer's veto ----

  lemma {:induction false} IpsExact(w: seq<Stamped<string>>)
    ensures forall ip :: ip in IpsOf(w) <==> ip != "" && exists i :: 0 <= i < |w| && w[i].tag == ip
  {
    if w != [] {
      var init := w[..|w| - 1];
      IpsExact(init);
      assert forall i :: 0 <= i < |init| ==> init[i] == w[i];
    }
  }

  lemma {:induction false} TargetExact(cfg: Config, ips: seq<string>, fallback: string)
    ensures var t := TargetIp(cfg, ips, fallback);
            if cfg.geo.None? || cfg.allowed == [] || forall ip <- ips :: Allowed(cfg, cfg.geo.value(ip))
            then t == fallback
            else t in ips && FirstForeign(cfg, ips, t)
    decreases |ips|
  {
    if ips != [] && cfg.geo.Some? {
      assert ips == [ips[0]] + ips[1..];
      TargetExact(cfg, ips[1..], fallback);
      if Allowed(cfg, cfg.geo.value(ips[0])) {
        FirstBehind(cfg, ips, TargetIp(cfg, ips[1..], fallback));
      } else {
        assert ips[..0] == [];
      }
    }
  }

  /** The IP is not from an allowed country, and all before it are. */
  predicate FirstForeign(cfg: Config, ips: seq<string>, ip: string)
    requires cfg.geo.Some?
  {
    exists k :: 0 <= k < |ips| && ips[k] == ip && !Allowed(cfg, cfg.geo.value(ip))
                && forall before <- ips[..k] :: Allowed(cfg, cfg.geo.value(before))
  }

  lemma FirstBehind(cfg: Config, ips: seq<string>, ip: string)
    requires cfg.geo.Some? && ips != [] && Allowed(cfg, cfg.geo.value(ips[0]))
    ensures FirstForeign(cfg, ips[1..], ip) ==> FirstForeign(cfg, ips, ip)
  {
    hide Allowed;
    if FirstForeign(cfg, ips[1..], ip) {
      var k :| 0 <= k < |ips[1..]| && ips[1..][k] == ip && !Allowed(cfg, cfg.geo.value(ip))
               && forall before <- ips[1..][..k] :: Allowed(cfg, cfg.geo.value(before));
      assert ips[..k + 1] == [ips[0]] + ips[1..][..k];
      assert ips[k + 1] == ip;
    }
  }

  /** An address text without a prefix is its own base. */
  predicate PlainText(ip: string) { '/' !in ip }

  predicate AllAllowed(cfg: Config, ips: seq<string>)
    requires cfg.geo.Some?
  {
    forall ip <- ips :: EnforcerAllows(cfg.allowed, cfg.geo.value(ip))
  }

  lemma TargetVeto(cfg: Config, raw: seq<string>, ips: seq<string>, fallback: string)
    requires cfg.allowed == LoadCountries(raw) && raw != [] && cfg.geo.Some?
    requires forall ip <- ips :: ip != "" && PlainText(ip)
    requires fallback != "" ==> fallback in ips
    ensures VetoedByCountry(cfg.allowed, cfg.geo, TargetIp(cfg, ips, fallback))
       <==> fallback != "" && AllAllowed(cfg, ips)
  {
    hide TargetIp, LoadCountries, DetectorAllows, EnforcerAllows;
    LoadedNonempty(raw);
    TargetExact(cfg, ips, fallback);
    forall ip | ip in ips
      ensures Allowed(cfg, cfg.geo.value(ip)) == EnforcerAllows(cfg.allowed, cfg.geo.value(ip)) && BaseText(ip) == ip
    {
      SidesAgree(cfg, raw, cfg.geo.value(ip));
    }
  }

  /** The enforcer skips the suspension exactly when the event has an IP and every IP of the
      window is from an allowed country: one connection from elsewhere, or of unknown origin,
      is enough for the suspension to go ahead, whichever login crossed the threshold. */
  lemma {:induction false} SuspensionVetoExact(cfg: Config, raw: seq<string>, w: seq<Stamped<string>>, ev: Event)
    requires cfg.allowed == LoadCountries(raw) && raw != [] && cfg.geo.Some?
    requires w != [] && w[|w| - 1].tag == ev.ip
    requires forall r <- w :: PlainText(r.tag)
    ensures AlertsFor(cfg, w, ev)[0].action
         == SuspendAccount
    ensures VetoedByCountry(cfg.allowed, cfg.geo, AlertsFor(cfg, w, ev)[0].ip)
       <==> ev.ip != "" && AllAllowed(cfg, IpsOf(w))
  {
    hide IpsOf, TargetIp, LoadCountries, VetoedByCountry, AllAllowed;
    IpsExact(w);
    forall ip | ip in IpsOf(w) ensures ip != "" && PlainText(ip) {
      var i :| 0 <= i < |w| && w[i].tag == ip;
      assert w[i] in w;
    }
    TargetVeto(cfg, raw, IpsOf(w), ev.ip);
  }

  lemma LoadedNonempty(raw: seq<string>)
    ensures LoadCountries(raw) == []
       <==> raw == []
  {
  }

  lemma SidesAgree(cfg: Config, raw: seq<string>, country: string)
    requires cfg.allowed == LoadCountries(raw)
    ensures Allowed(cfg, country) == EnforcerAllows(cfg.allowed, country)
  {
    if country != "" { LoadedListAgrees(raw, country); }
  }
}
