/** Impossible travel: two logins of one account from different countries, closer in time than
    the window. An alert stores the login back-dated by a whole window. */
module ImpossibleTraveler {
  import opened Events
  import opened TargetText
  import opened Countries
  import opened Time

  const STALE_AFTER: Nanos := 24 * 60 * MINUTE
  const PRUNE_EVERY: nat := 5_000

  /** trusted tells the IPs of known proxies, by network or organisation; geo is the country of
      an IP, "" when it is unknown. */
  datatype Config = Config(windowMinutes: int, allowed: seq<string>, trusted: string -> bool, geo: string -> string)

  datatype Login = Login(country: string, ip: string, ts: Nanos)

  datatype State = State(logins: map<string, Login>, calls: nat)

  // ---- specification ----

  function WindowOf(cfg: Config): Nanos { cfg.windowMinutes * MINUTE }

  predicate Counted(cfg: Config, ev: Event) {
    ev.kind == AuthSuccess && ev.account != "" && ev.ip != "" && !cfg.trusted(ev.ip)
  }

  predicate Considered(cfg: Config, ev: Event) { Counted(cfg, ev) && cfg.geo(ev.ip) != "" }

  function LoginOf(cfg: Config, ev: Event): Login { Login(cfg.geo(ev.ip), ev.ip, ev.ts) }

  function Apart(a: Nanos, b: Nanos): (d: Nanos)
    ensures d >= 0 && (d == a - b || d == b - a)
  {
    if a < b then b - a else a - b
  }

  /** Two logins that no honest user makes. */
  predicate Travel(cfg: Config, prev: Login, cur: Login) {
    && prev.country != cur.country
    && Apart(cur.ts, prev.ts) < WindowOf(cfg)
    && !(DetectorAllows(cfg.allowed, prev.country) && DetectorAllows(cfg.allowed, cur.country))
  }

  function Recent(logins: map<string, Login>, now: Nanos): map<string, Login> {
    map a | a in logins && logins[a].ts >= now - STALE_AFTER :: logins[a]
  }

  function Ticked(s: State, now: Nanos): State {
    if s.calls + 1 >= PRUNE_EVERY then State(Recent(s.logins, now), 0) else s.(calls := s.calls + 1)
  }

  predicate Alerting(cfg: Config, s: State, ev: Event) {
    var logins := Ticked(s, ev.ts).logins;
    Considered(cfg, ev) && ev.account in logins && Travel(cfg, logins[ev.account], LoginOf(cfg, ev))
  }

  function Stored(cfg: Config, ev: Event, alerted: bool): Login {
    LoginOf(cfg, ev).(ts := if alerted then ev.ts - WindowOf(cfg) else ev.ts)
  }

  function Next(cfg: Config, s: State, ev: Event): State {
    if !Counted(cfg, ev) then s
    else
      var t := Ticked(s, ev.ts);
      if cfg.geo(ev.ip) == "" then t
      else t.(logins := t.logins[ev.account := Stored(cfg, ev, Alerting(cfg, s, ev))])
  }

  /** The logins of the pair that are not from an allowed country, the current one first;
      without allowed countries nobody can be told apart. */
  function Attackers(cfg: Config, prev: Login, cur: Login): seq<Login> {
    var of := (l: Login) => if cfg.allowed == [] || DetectorAllows(cfg.allowed, l.country) then [] else [l];
    of(cur) + of(prev)
  }

  function AlertsFor(cfg: Config, prev: Login, cur: Login, ev: Event): seq<Alert> {
    var attackers := Attackers(cfg, prev, cur);
    var target := if attackers == [] then ev.ip else attackers[0].ip;
    [Alert("impossible_traveler", 85, SuspendAccount, ev.ts, target, ev.account)]
    + (if |attackers| < 2 then [] else [Alert("impossible_traveler", 85, BlockIp, ev.ts, attackers[1].ip, ev.account)])
  }

  // ---- the module ----

  class Module {
    const cfg: Config
    var lastLogins: map<string, Login>
    var callCount: nat

    ghost function View(): State reads this { State(lastLogins, callCount) }

    constructor (cfg: Config)
      ensures this.cfg == cfg && View() == State(map[], 0)
    {
      this.cfg := cfg;
      lastLogins, callCount := map[], 0;
    }

    method Handle(ev: Event) returns (alerts: seq<Alert>)
      modifies this
      ensures View() == Next(cfg, old(View()), ev)
      ensures alerts == if Alerting(cfg, old(View()), ev)
                        then AlertsFor(cfg, Ticked(old(View()), ev.ts).logins[ev.account], LoginOf(cfg, ev), ev) else []
    {
      hide DetectorAllows, Recent;
      if ev.kind != AuthSuccess || ev.account == "" || ev.ip == "" { return []; }
      if cfg.trusted(ev.ip) { return []; }
      callCount := callCount + 1;
      if callCount >= PRUNE_EVERY {
        callCount := 0;
        PruneStale(ev.ts);
      }
      assert View() == Ticked(old(View()), ev.ts);
      var country := cfg.geo(ev.ip);
      if country == "" { return []; }
      var current := Login(country, ev.ip, ev.ts);
      if ev.account !in lastLogins {
        lastLogins := lastLogins[ev.account := current];
        return [];
      }
      var prev := lastLogins[ev.account];
      if prev.country == country {
        lastLogins := lastLogins[ev.account := current];
        return [];
      }
      var elapsed := ev.ts - prev.ts;
      var window := cfg.windowMinutes * MINUTE;
      if elapsed < 0 { elapsed := -elapsed; }
      if elapsed >= window {
        lastLogins := lastLogins[ev.account := current];
        return [];
      }
      if DetectorAllows(cfg.allowed, prev.country) && DetectorAllows(cfg.allowed, country) {
        lastLogins := lastLogins[ev.account := current];
        return [];
      }
      lastLogins := lastLogins[ev.account := Login(country, ev.ip, ev.ts - window)];
      alerts := Raise(ev, prev, current);
    }

    method Raise(ev: Event, prev: Login, current: Login) returns (alerts: seq<Alert>)
      ensures alerts == AlertsFor(cfg, prev, current, ev)
    {
      hide DetectorAllows;
      var attackers: seq<Login> := [];
      if |cfg.allowed| > 0 {
        var pair := [current, prev];
        for k := 0 to |pair|
          invariant k == 0 ==> attackers == []
          invariant k == 1 ==> attackers == if DetectorAllows(cfg.allowed, current.country) then [] else [current]
          invariant k == 2 ==> attackers == Attackers(cfg, prev, current)
        {
          if !DetectorAllows(cfg.allowed, pair[k].country) { attackers := attackers + [pair[k]]; }
        }
      }
      var suspendIp := if |attackers| > 0 then attackers[0].ip else ev.ip;
      alerts := [Alert("impossible_traveler", 85, SuspendAccount, ev.ts, suspendIp, ev.account)];
      var first := alerts;
      ghost var second := if |attackers| < 2 then [] else
                            [Alert("impossible_traveler", 85, BlockIp, ev.ts, attackers[1].ip, ev.account)];
      var i := 1;
      while i < |attackers|
        invariant i == 1 || i == |attackers| == 2
        invariant alerts == first + if i == 1 then [] else second
      {
        alerts := alerts + [Alert("impossible_traveler", 85, BlockIp, ev.ts, attackers[i].ip, ev.account)];
        i := i + 1;
      }
    }

    method PruneStale(now: Nanos)
      modifies this`lastLogins
      ensures lastLogins == Recent(old(lastLogins), now)
    {
      var cutoff := now - STALE_AFTER;
      var rest := lastLogins.Keys;
      while rest != {}
        invariant rest <= old(lastLogins).Keys
        invariant forall a :: a in lastLogins <==>
                    a in old(lastLogins) && (a in rest || old(lastLogins)[a].ts >= cutoff)
        invariant forall a <- lastLogins :: lastLogins[a] == old(lastLogins)[a]
      {
        var a :| a in rest;
        if lastLogins[a].ts < cutoff { lastLogins := lastLogins - {a}; }
        rest := rest - {a};
      }
    }
  }

  // ---- runs ----

  function Run(cfg: Config, evs: seq<Event>): State {
    if evs == [] then State(map[], 0) else Next(cfg, Run(cfg, evs[..|evs| - 1]), evs[|evs| - 1])
  }

  /** The j-th event of the run alerts. */
  predicate AlertsAt(cfg: Config, evs: seq<Event>, j: nat)
    requires j < |evs|
  {
    Alerting(cfg, Run(cfg, evs[..j]), evs[j])
  }

  /** The last considered login of the account: nothing is ever pruned from a history. */
  function LastLogin(cfg: Config, evs: seq<Event>, account: string): (r: Option<nat>)
    ensures r.Some? ==> r.value < |evs| && IsLogin(cfg, evs[r.value], account)
    ensures forall k :: (if r.Some? then r.value + 1 else 0) <= k < |evs| ==> !IsLogin(cfg, evs[k], account)
  {
    if evs == [] then None
    else if IsLogin(cfg, evs[|evs| - 1], account) then Some(|evs| - 1)
    else LastLogin(cfg, evs[..|evs| - 1], account)
  }

  /** A success of the account, from an IP of a known country that is no trusted proxy's. */
  predicate IsLogin(cfg: Config, ev: Event, account: string) {
    && ev.kind == AuthSuccess && ev.account == account != ""
    && ev.ip != "" && !cfg.trusted(ev.ip) && cfg.geo(ev.ip) != ""
  }

  /** Two events that no honest user makes: their IPs look up to different countries, of which at
      most one is allowed, and less than the window lies between them. */
  predicate Impossible(cfg: Config, a: Event, b: Event) {
    && cfg.geo(a.ip) != cfg.geo(b.ip)
    && -cfg.windowMinutes * MINUTE < b.ts - a.ts < cfg.windowMinutes * MINUTE
    && (DetectorAllows(cfg.allowed, cfg.geo(a.ip)) ==> !DetectorAllows(cfg.allowed, cfg.geo(b.ip)))
  }

  lemma ImpossibleExact(cfg: Config, a: Event, b: Event)
    ensures Travel(cfg, LoginOf(cfg, a), LoginOf(cfg, b))
       <==> Impossible(cfg, a, b)
  {
    hide DetectorAllows;
  }

  /** The definition on the full history: the event and the account's last login make an
      impossible travel, and that login did not alert itself. */
  predicate ShouldAlert(cfg: Config, evs: seq<Event>, j: nat)
    requires j < |evs|
    decreases j
  {
    IsLogin(cfg, evs[j], evs[j].account) &&
    var p := LastLogin(cfg, evs[..j], evs[j].account);
    p.Some? && !ShouldAlert(cfg, evs, p.value) && Impossible(cfg, evs[p.value], evs[j])
  }

  ghost predicate Chronological(evs: seq<Event>) {
    forall i, j :: 0 <= i < j < |evs| ==> evs[i].ts <= evs[j].ts
  }

  /** A login's own time, or that of a whole window before. */
  function KeptTime(cfg: Config, ev: Event, alerted: bool): Nanos {
    if alerted then ev.ts - cfg.windowMinutes * MINUTE else ev.ts
  }

  /** What the module remembers of an account is its last login, back-dated if that login
      alerted; a forgotten login is stale. */
  ghost predicate Remembers(cfg: Config, logins: map<string, Login>, evs: seq<Event>, account: string, now: Nanos) {
    var p := LastLogin(cfg, evs, account);
    && (account in logins ==>
          && p.Some?
          && var ev := evs[p.value];
             logins[account] == Login(cfg.geo(ev.ip), ev.ip, KeptTime(cfg, ev, AlertsAt(cfg, evs, p.value))))
    && (p.Some? && account !in logins ==>
          KeptTime(cfg, evs[p.value], AlertsAt(cfg, evs, p.value)) < now - 24 * 60 * MINUTE)
  }

  lemma RememberedLater(cfg: Config, logins: map<string, Login>, evs: seq<Event>, account: string, now: Nanos,
                        later: Nanos)
    requires Remembers(cfg, logins, evs, account, now) && now <= later
    ensures Remembers(cfg, logins, evs, account, later)
  {
    hide Run, Alerting, LastLogin;
  }

  lemma TickRemembers(cfg: Config, s: State, evs: seq<Event>, account: string, now: Nanos)
    requires Remembers(cfg, s.logins, evs, account, now)
    ensures Remembers(cfg, Ticked(s, now).logins, evs, account, now)
  {
    hide Run, Alerting, LastLogin;
  }

  /** One more event: the last login of other accounts stays, and earlier verdicts stay. */
  lemma Extended(cfg: Config, evs: seq<Event>, account: string)
    requires evs != []
    ensures var init, ev := evs[..|evs| - 1], evs[|evs| - 1];
            && Run(cfg, evs) == Next(cfg, Run(cfg, init), ev)
            && LastLogin(cfg, evs, account) ==
               (if IsLogin(cfg, ev, account) then Some(|evs| - 1) else LastLogin(cfg, init, account))
            && AlertsAt(cfg, evs, |evs| - 1) == Alerting(cfg, Run(cfg, init), ev)
            && forall i :: 0 <= i < |init| ==> AlertsAt(cfg, evs, i) == AlertsAt(cfg, init, i)
  {
    hide Next, Alerting;
    var init := evs[..|evs| - 1];
    forall i | 0 <= i < |init| ensures AlertsAt(cfg, evs, i) == AlertsAt(cfg, init, i) { assert init[..i] == evs[..i]; }
  }

  lemma {:induction false} RunRemembers(cfg: Config, evs: seq<Event>, account: string, now: Nanos)
    requires forall i :: 0 <= i < |evs| ==> evs[i].ts <= now
    requires Chronological(evs)
    ensures Remembers(cfg, Run(cfg, evs).logins, evs, account, now)
  {
    if evs != [] {
      var init, ev := evs[..|evs| - 1], evs[|evs| - 1];
      RunRemembers(cfg, init, account, ev.ts);
      hide Run, Alerting, AlertsAt, LastLogin, Recent, Considered, Counted;
      Extended(cfg, evs, account);
      StepRemembers(cfg, evs, account);
      RememberedLater(cfg, Run(cfg, evs).logins, evs, account, ev.ts, now);
    }
  }

  lemma StepRemembers(cfg: Config, evs: seq<Event>, account: string)
    requires evs != []
    requires Remembers(cfg, Run(cfg, evs[..|evs| - 1]).logins, evs[..|evs| - 1], account, evs[|evs| - 1].ts)
    ensures Remembers(cfg, Run(cfg, evs).logins, evs, account, evs[|evs| - 1].ts)
  {
    var init, ev := evs[..|evs| - 1], evs[|evs| - 1];
    TickRemembers(cfg, Run(cfg, init), init, account, ev.ts);
    NextLogins(cfg, Run(cfg, init), ev, account);
    Extended(cfg, evs, account);
    hide Run, Alerting, AlertsAt, LastLogin, Ticked, Next, IsLogin, Counted, KeptTime;
  }

  /** What one event leaves in memory of an account. */
  lemma NextLogins(cfg: Config, s: State, ev: Event, account: string)
    ensures var next := Next(cfg, s, ev).logins;
            if IsLogin(cfg, ev, account)
            then account in next
                 && next[account] == Login(cfg.geo(ev.ip), ev.ip, KeptTime(cfg, ev, Alerting(cfg, s, ev)))
            else
              var kept := if Counted(cfg, ev) then Ticked(s, ev.ts).logins else s.logins;
              (account in next <==> account in kept) && (account in next ==> next[account] == kept[account])
  {
    hide Alerting, Ticked;
  }

  // ---- the theorems ----

  /** What the verdict on event j is taken against. */
  lemma VerdictAgainst(cfg: Config, evs: seq<Event>, j: nat)
    requires Chronological(evs) && j < |evs|
    ensures var logins := Ticked(Run(cfg, evs[..j]), evs[j].ts).logins;
            && Remembers(cfg, logins, evs[..j], evs[j].account, evs[j].ts)
            && AlertsAt(cfg, evs, j) ==
               (&& Considered(cfg, evs[j]) && evs[j].account in logins
                && Travel(cfg, logins[evs[j].account], LoginOf(cfg, evs[j])))
  {
    hide LastLogin, Considered, Travel;
    var before := evs[..j];
    assert forall i :: 0 <= i < j ==> before[i] == evs[i];
    RunRemembers(cfg, before, evs[j].account, evs[j].ts);
    TickRemembers(cfg, Run(cfg, before), before, evs[j].account, evs[j].ts);
  }

  lemma AlertsAtPrefix(cfg: Config, evs: seq<Event>, i: nat, j: nat)
    requires i < j <= |evs|
    ensures AlertsAt(cfg, evs[..j], i) == AlertsAt(cfg, evs, i) && evs[..j][i] == evs[i]
  {
    assert evs[..j][..i] == evs[..i];
  }

  /** Two consecutive considered logins of an account never both alert. */
  lemma NeverTwiceInARow(cfg: Config, evs: seq<Event>, i: nat, j: nat)
    requires Chronological(evs) && i < j < |evs|
    requires LastLogin(cfg, evs[..j], evs[j].account) == Some(i)
    ensures !(AlertsAt(cfg, evs, i) && AlertsAt(cfg, evs, j))
  {
    hide Run, LastLogin, AlertsAt, Alerting, Recent, Considered, Ticked;
    VerdictAgainst(cfg, evs, j);
    AlertsAtPrefix(cfg, evs, i, j);
  }

  /** Every alert compares two real consecutive logins of the account, from different
      countries that are not both allowed, closer in time than the window. */
  lemma AlertsAreTravels(cfg: Config, evs: seq<Event>, j: nat) returns (i: nat)
    requires Chronological(evs) && j < |evs| && AlertsAt(cfg, evs, j)
    ensures i < j && IsLogin(cfg, evs[i], evs[j].account) && IsLogin(cfg, evs[j], evs[j].account)
    ensures forall k :: i < k < j ==> !IsLogin(cfg, evs[k], evs[j].account)
    ensures !AlertsAt(cfg, evs, i) && Impossible(cfg, evs[i], evs[j])
    ensures Ticked(Run(cfg, evs[..j]), evs[j].ts).logins[evs[j].account]
         == Login(cfg.geo(evs[i].ip), evs[i].ip, evs[i].ts)
  {
    hide Run, AlertsAt, Alerting, Recent, Ticked, LastLogin, Impossible;
    VerdictAgainst(cfg, evs, j);
    i := LastLogin(cfg, evs[..j], evs[j].account).value;
    AlertsAtPrefix(cfg, evs, i, j);
    NeverTwiceInARow(cfg, evs, i, j);
    ImpossibleExact(cfg, evs[i], evs[j]);
    assert forall k :: 0 <= k < j ==> evs[..j][k] == evs[k];
  }

  /** The verdict on every event: it alerts if and only if it is a login, the module still remembers
      the account's last one, that one did not alert itself, and the two make an impossible travel. */
  lemma AlertsExactly(cfg: Config, evs: seq<Event>, j: nat)
    requires Chronological(evs) && j < |evs|
    ensures AlertsAt(cfg, evs, j) ==
            (IsLogin(cfg, evs[j], evs[j].account) &&
             var p := LastLogin(cfg, evs[..j], evs[j].account);
             && p.Some? && evs[j].account in Ticked(Run(cfg, evs[..j]), evs[j].ts).logins
             && !AlertsAt(cfg, evs, p.value) && Impossible(cfg, evs[p.value], evs[j]))
  {
    hide Run, AlertsAt, Alerting, Recent, Ticked, LastLogin, Impossible, Travel;
    VerdictAgainst(cfg, evs, j);
    var p := LastLogin(cfg, evs[..j], evs[j].account);
    if p.Some? {
      AlertsAtPrefix(cfg, evs, p.value, j);
      ImpossibleExact(cfg, evs[p.value], evs[j]);
      if AlertsAt(cfg, evs, j) { var i := AlertsAreTravels(cfg, evs, j); }
    }
  }

  /** Pruning is invisible for windows of a day at most: an event alerts exactly when the
      definition on the full history says so. */
  lemma {:induction false} AlertsAsDefined(cfg: Config, evs: seq<Event>, j: nat)
    requires Chronological(evs) && j < |evs| && cfg.windowMinutes <= 24 * 60
    ensures AlertsAt(cfg, evs, j) <==> ShouldAlert(cfg, evs, j)
    decreases j
  {
    var p := LastLogin(cfg, evs[..j], evs[j].account);
    if p.Some? { AlertsAsDefined(cfg, evs, p.value); }
    VerdictStep(cfg, evs, j);
  }

  /** Within a day the last login is always remembered, where it matters. */
  lemma VerdictStep(cfg: Config, evs: seq<Event>, j: nat)
    requires Chronological(evs) && j < |evs| && cfg.windowMinutes <= 24 * 60
    ensures AlertsAt(cfg, evs, j) ==
            (IsLogin(cfg, evs[j], evs[j].account) &&
             var p := LastLogin(cfg, evs[..j], evs[j].account);
             p.Some? && !AlertsAt(cfg, evs, p.value) && Impossible(cfg, evs[p.value], evs[j]))
  {
    hide Run, AlertsAt, Alerting, Recent, Considered, Ticked, LastLogin, DetectorAllows;
    AlertsExactly(cfg, evs, j);
    VerdictAgainst(cfg, evs, j);
    var p := LastLogin(cfg, evs[..j], evs[j].account);
    if p.Some? { AlertsAtPrefix(cfg, evs, p.value, j); }
  }

  // ---- a window of more than a day ----

  function LoginEvent(account: string, ip: string, ts: Nanos): Event {
    Event(AuthSuccess, ts, "", "", account, "", ip, map[], "")
  }

  /** A login from one place, a day and a nanosecond of other traffic, and a login from the
      other place. */
  function LongTrip(here: string, there: string): seq<Event> {
    var late := STALE_AFTER + 1;
    [LoginEvent("a", here, 0)] + seq(PRUNE_EVERY - 2, _ => LoginEvent("b", here, late)) + [LoginEvent("a", there, late)]
  }

  lemma {:induction false} LongTripCalls(cfg: Config, here: string, there: string, n: nat)
    requires here != "" && !cfg.trusted(here) && cfg.geo(here) != "" && 1 <= n <= PRUNE_EVERY - 1
    ensures var s := Run(cfg, LongTrip(here, there)[..n]);
            s.calls == n && "a" in s.logins && s.logins["a"].ts == 0
    ensures LastLogin(cfg, LongTrip(here, there)[..n], "a")
         == Some(0)
  {
    var evs := LongTrip(here, there);
    assert evs[..n][..n - 1] == evs[..n - 1];
    if n > 1 {
      hide Next, Counted, Alerting;
      assert evs[n - 1] == LoginEvent("b", here, STALE_AFTER + 1);
      LongTripCalls(cfg, here, there, n - 1);
      OtherTraffic(cfg, Run(cfg, evs[..n - 1]), evs[n - 1]);
    }
  }

  lemma OtherTraffic(cfg: Config, s: State, ev: Event)
    requires Considered(cfg, ev) && ev.account != "a" && s.calls + 1 < PRUNE_EVERY
    ensures Next(cfg, s, ev).calls == s.calls + 1
    ensures "a" in s.logins ==> "a" in Next(cfg, s, ev).logins && Next(cfg, s, ev).logins["a"] == s.logins["a"]
  {
    hide Alerting;
  }

  lemma LongTripInOrder(here: string, there: string)
    ensures Chronological(LongTrip(here, there))
  {
  }

  /** The first event never alerts. */
  lemma FirstShouldNot(cfg: Config, evs: seq<Event>)
    requires evs != []
    ensures !ShouldAlert(cfg, evs, 0)
  {
    hide Impossible, IsLogin;
    assert evs[..0] == [];
  }

  lemma LongTripShould(cfg: Config, here: string, there: string)
    requires cfg.windowMinutes > 24 * 60
    requires here != "" && there != "" && !cfg.trusted(here) && !cfg.trusted(there)
    requires cfg.geo(here) != "" && cfg.geo(there) != "" && cfg.geo(here) != cfg.geo(there)
    requires !(DetectorAllows(cfg.allowed, cfg.geo(here)) && DetectorAllows(cfg.allowed, cfg.geo(there)))
    ensures ShouldAlert(cfg, LongTrip(here, there), PRUNE_EVERY - 1)
  {
    hide DetectorAllows, LastLogin;
    var evs, j := LongTrip(here, there), PRUNE_EVERY - 1;
    LongTripCalls(cfg, here, there, j);
    FirstShouldNot(cfg, evs);
    assert evs[0] == LoginEvent("a", here, 0) && evs[j] == LoginEvent("a", there, STALE_AFTER + 1);
  }

  lemma LongTripForgets(cfg: Config, here: string, there: string)
    requires here != "" && !cfg.trusted(here) && cfg.geo(here) != ""
    ensures !AlertsAt(cfg, LongTrip(here, there), PRUNE_EVERY - 1)
  {
    hide DetectorAllows, Run, LastLogin;
    var evs, j := LongTrip(here, there), PRUNE_EVERY - 1;
    LongTripCalls(cfg, here, there, j);
    assert evs[j].ts == STALE_AFTER + 1 && evs[j].account == "a";
  }

  /** The bound of a day is exact: for every longer window, and any two places that make an
      alert, the pruning loses one. */
  lemma LongWindowsLoseAlerts(cfg: Config, here: string, there: string)
    requires cfg.windowMinutes > 24 * 60
    requires here != "" && there != "" && !cfg.trusted(here) && !cfg.trusted(there)
    requires cfg.geo(here) != "" && cfg.geo(there) != "" && cfg.geo(here) != cfg.geo(there)
    requires !(DetectorAllows(cfg.allowed, cfg.geo(here)) && DetectorAllows(cfg.allowed, cfg.geo(there)))
    ensures var evs := LongTrip(here, there);
            Chronological(evs) && ShouldAlert(cfg, evs, PRUNE_EVERY - 1) && !AlertsAt(cfg, evs, PRUNE_EVERY - 1)
  {
    hide *;
    LongTripInOrder(here, there);
    LongTripShould(cfg, here, there);
    LongTripForgets(cfg, here, there);
  }

  // ---- the alerts and the enforcer's veto ----

  /** The alerts name exactly the IPs of the pair that are not from an allowed country, each in
      one alert; without allowed countries, the current one. */
  lemma AlertedIps(cfg: Config, prev: Login, cur: Login, ev: Event)
    requires Travel(cfg, prev, cur) && cur.ip == ev.ip
    ensures var alerts := AlertsFor(cfg, prev, cur, ev);
            var foreign := (l: Login) => if DetectorAllows(cfg.allowed, l.country) then [] else [l.ip];
            && alerts[0].action == SuspendAccount
            && (forall i :: 0 < i < |alerts| ==> alerts[i].action == BlockIp)
            && (forall a <- alerts :: a == Alert("impossible_traveler", 85, a.action, ev.ts, a.ip, ev.account))
            && Ips(alerts) == if cfg.allowed == [] then [cur.ip] else foreign(cur) + foreign(prev)
  {
    hide DetectorAllows;
    var alerts := AlertsFor(cfg, prev, cur, ev);
    assert Ips(alerts) == [alerts[0].ip] + if |alerts| == 2 then [alerts[1].ip] else [];
  }

  function Ips(alerts: seq<Alert>): seq<string> {
    seq(|alerts|, i requires 0 <= i < |alerts| => alerts[i].ip)
  }

  /** Every remembered country is the one its IP looks up to. */
  ghost predicate LookedUp(cfg: Config, logins: map<string, Login>) {
    forall a <- logins :: logins[a].country == cfg.geo(logins[a].ip) != ""
  }

  lemma {:induction false} RunLookedUp(cfg: Config, evs: seq<Event>)
    ensures LookedUp(cfg, Run(cfg, evs).logins)
  {
    if evs != [] {
      RunLookedUp(cfg, evs[..|evs| - 1]);
      hide Alerting, Counted;
      assert Run(cfg, evs) == Next(cfg, Run(cfg, evs[..|evs| - 1]), evs[|evs| - 1]);
    }
  }

  /** The lookup knows addresses only: a text that is none, such as one with a slash, has no
      country. */
  ghost predicate KnowsAddressesOnly(geo: string -> string) { forall ip :: '/' in ip ==> geo(ip) == "" }

  /** With the country list as loaded and the same lookup on both sides the enforcer never
      skips the suspension, nor any of the blocks, whatever the logins and their order. */
  lemma NeverVetoed(cfg: Config, raw: seq<string>, evs: seq<Event>, ev: Event)
    requires cfg.allowed == LoadCountries(raw) && Alerting(cfg, Run(cfg, evs), ev)
    requires KnowsAddressesOnly(cfg.geo)
    ensures var prev := Ticked(Run(cfg, evs), ev.ts).logins[ev.account];
            forall a <- AlertsFor(cfg, prev, LoginOf(cfg, ev), ev) :: !VetoedByCountry(cfg.allowed, Some(cfg.geo), a.ip)
  {
    hide Run, LoadCountries, DetectorAllows, EnforcerAllows;
    RunLookedUp(cfg, evs);
    SpareNobody(cfg, raw, Ticked(Run(cfg, evs), ev.ts).logins[ev.account], LoginOf(cfg, ev), ev);
  }

  lemma SpareNobody(cfg: Config, raw: seq<string>, prev: Login, cur: Login, ev: Event)
    requires cfg.allowed == LoadCountries(raw) && Travel(cfg, prev, cur) && cur.ip == ev.ip
    requires KnowsAddressesOnly(cfg.geo)
    requires prev.country == cfg.geo(prev.ip) != "" && cur.country == cfg.geo(cur.ip) != ""
    ensures forall a <- AlertsFor(cfg, prev, cur, ev) :: !VetoedByCountry(cfg.allowed, Some(cfg.geo), a.ip)
  {
    hide LoadCountries, DetectorAllows, EnforcerAllows;
    forall l: Login | l in [prev, cur] && !DetectorAllows(cfg.allowed, l.country)
      ensures !VetoedByCountry(cfg.allowed, Some(cfg.geo), l.ip)
    {
      LoadedListAgrees(raw, l.country);
      assert '/' !in l.ip && BaseText(l.ip) == l.ip;
    }
    assert prev in [prev, cur] && cur in [prev, cur];
    var alerts := AlertsFor(cfg, prev, cur, ev);
    assert forall a <- alerts :: a == alerts[0] || a == alerts[1];
  }

  // ---- what is forgotten ----

  /** The successes of an account, from an IP that is no trusted proxy's. */
  function Successes(cfg: Config, evs: seq<Event>): nat {
    if evs == [] then 0
    else
      var ev := evs[|evs| - 1];
      Successes(cfg, evs[..|evs| - 1])
      + (if ev.kind == AuthSuccess && ev.account != "" && ev.ip != "" && !cfg.trusted(ev.ip) then 1 else 0)
  }

  lemma {:induction false} SuccessesCounted(cfg: Config, evs: seq<Event>)
    ensures Run(cfg, evs).calls == Successes(cfg, evs) % 5_000
  {
    if evs != [] {
      hide Alerting, Recent;
      SuccessesCounted(cfg, evs[..|evs| - 1]);
    }
  }

  /** Behind every 5000th of them no login is left, but the newest, that was older than a day by then. */
  lemma PruneForgets(cfg: Config, evs: seq<Event>, account: string)
    requires evs != [] && Successes(cfg, evs) > Successes(cfg, evs[..|evs| - 1]) && Successes(cfg, evs) % 5_000 == 0
    requires account in Run(cfg, evs).logins && account != evs[|evs| - 1].account
    ensures Run(cfg, evs).logins[account].ts >= evs[|evs| - 1].ts - 24 * 60 * MINUTE
  {
    hide Alerting;
    SuccessesCounted(cfg, evs[..|evs| - 1]);
  }
}
