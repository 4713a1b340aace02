/** When the enforcer suspends an account, and what becomes of the suspensions that the detectors
    ask for. */
module Suspensions {
  import opened TargetText
  import opened Countries
  import opened Events
  import opened Enforcers
  import Bans
  import Windows
  import Sasl = SaslDetector
  import Traveler = ImpossibleTraveler

  /** The IP is exempt: it is there, countries can be looked up, and the one of its base is configured. */
  ghost predicate Exempt(cfg: Bans.Config, ip: string, base: string) {
    ip != "" && cfg.geo.Some? && OnList(cfg.allowedCountries, cfg.geo.value(base))
  }

  /** The answer to every suspension request: skipped if and only if its IP is exempt; else a
      duplicate if and only if the account is suspended already; else as the command reports. */
  lemma SuspendedExactly(cfg: Bans.Config, suspended: map<string, string>, account: string, ip: string,
                         zmprovOk: bool, base: string)
    requires IsBase(base, ip)
    ensures SuspendOutcome(cfg, suspended, account, ip, zmprovOk) ==
            if Exempt(cfg, ip, base) then Bans.Skipped
            else if account in suspended then Bans.Already
            else if zmprovOk then Bans.Applied
            else Bans.Failed
  {
    hide VetoedByCountry;
    VetoExact(cfg.allowedCountries, cfg.geo, ip, base);
  }

  /** The enforcer has the detector's lookup and its list of countries, as loaded. */
  ghost predicate SameCountries(cfg: Bans.Config, raw: seq<string>, allowed: seq<string>,
                                geo: Option<string -> string>) {
    cfg.allowedCountries == allowed == LoadCountries(raw) && cfg.geo == geo
  }

  /** From the connections to the answer: the suspension that sasl_connections asks for, for the
      connections w that crossed its threshold, is skipped if and only if the last one has an IP and
      every IP among them is from a configured country. */
  lemma SaslSkippedExactly(cfg: Bans.Config, det: Sasl.Config, raw: seq<string>, w: seq<Windows.Stamped<string>>,
                           ev: Event, suspended: map<string, string>, zmprovOk: bool)
    requires SameCountries(cfg, raw, det.allowed, det.geo) && raw != [] && det.geo.Some?
    requires w != [] && w[|w| - 1].tag == ev.ip
    requires forall r <- w :: Sasl.PlainText(r.tag)
    ensures var a := Sasl.AlertsFor(det, w, ev)[0];
            && a.action == SuspendAccount && a.account == ev.account
            && (SuspendOutcome(cfg, suspended, a.account, a.ip, zmprovOk) == Bans.Skipped
                <==> ev.ip != "" && forall r <- w :: r.tag != "" ==> OnList(cfg.allowedCountries, det.geo.value(r.tag)))
  {
    hide VetoedByCountry, LoadCountries, Sasl.TargetIp, Sasl.IpsOf, Sasl.AllAllowed, EnforcerAllows, OnList;
    Sasl.SuspensionVetoExact(det, raw, w, ev);
    AllOnList(det, w);
  }

  lemma AllOnList(det: Sasl.Config, w: seq<Windows.Stamped<string>>)
    requires det.geo.Some?
    ensures Sasl.AllAllowed(det, Sasl.IpsOf(w)) <==>
              forall r <- w :: r.tag != "" ==> OnList(det.allowed, det.geo.value(r.tag))
  {
    hide Sasl.IpsOf, EnforcerAllows, OnList;
    Sasl.IpsExact(w);
    forall ip ensures EnforcerAllows(det.allowed, det.geo.value(ip)) == OnList(det.allowed, det.geo.value(ip)) {
      AllowsExact(det.allowed, det.geo.value(ip));
    }
    forall r | r in w ensures r.tag != "" ==> r.tag in Sasl.IpsOf(w) {
      var i :| 0 <= i < |w| && w[i] == r;
    }
    forall ip | ip in Sasl.IpsOf(w) ensures exists r <- w :: r.tag == ip && ip != "" {
      var i :| 0 <= i < |w| && w[i].tag == ip;
      assert w[i] in w;
    }
  }

  /** From the logins to the answer: the suspension that impossible_traveler asks for is never skipped,
      whatever the logins and their order. */
  lemma TravelNeverSkipped(cfg: Bans.Config, det: Traveler.Config, raw: seq<string>, evs: seq<Event>, ev: Event,
                           suspended: map<string, string>, zmprovOk: bool)
    requires SameCountries(cfg, raw, det.allowed, Some(det.geo)) && Traveler.KnowsAddressesOnly(det.geo)
    requires Traveler.Alerting(det, Traveler.Run(det, evs), ev)
    ensures var prev := Traveler.Ticked(Traveler.Run(det, evs), ev.ts).logins[ev.account];
            forall a <- Traveler.AlertsFor(det, prev, Traveler.LoginOf(det, ev), ev) ::
              SuspendOutcome(cfg, suspended, a.account, a.ip, zmprovOk) ==
              if ev.account in suspended then Bans.Already else if zmprovOk then Bans.Applied else Bans.Failed
  {
    hide VetoedByCountry, LoadCountries, Traveler.Run, Traveler.Ticked;
    Traveler.NeverVetoed(det, raw, evs, ev);
  }
}
