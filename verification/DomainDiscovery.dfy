/** Credential spraying: failures of one IP against accounts of many domains, in tumbling
    windows that start with an IP's first failure. */
module DomainDiscovery {
  import opened Events
  import opened TargetText
  import opened Time
  import Feeds

  const PRUNE_EVERY: nat := 5_000

  datatype IpState = IpState(windowStart: Nanos, domains: set<string>)

  datatype State = State(ips: map<string, IpState>, calls: nat)

  datatype Attempt = Attempt(ip: string, domain: string, ts: Nanos)

  predicate Considered(ev: Event) {
    ev.kind == AuthFailed && ev.ip != "" && ev.account != "" && ExtractDomain(ev.account) != ""
  }

  function AttemptOf(ev: Event): Attempt { Attempt(ev.ip, ExtractDomain(ev.account), ev.ts) }

  // ---- specification ----

  predicate Over(st: IpState, now: Nanos, scan: Nanos) { now - st.windowStart >= scan }

  function Running(ips: map<string, IpState>, now: Nanos, scan: Nanos): map<string, IpState> {
    map ip | ip in ips && !Over(ips[ip], now, scan) :: ips[ip]
  }

  function Ticked(s: State, now: Nanos, scan: Nanos): State {
    if s.calls + 1 >= PRUNE_EVERY then State(Running(s.ips, now, scan), 0) else s.(calls := s.calls + 1)
  }

  /** The window the attempt falls into, with it. */
  function Entered(ips: map<string, IpState>, a: Attempt, scan: Nanos): IpState {
    if a.ip in ips && !Over(ips[a.ip], a.ts, scan)
    then ips[a.ip].(domains := ips[a.ip].domains + {a.domain})
    else IpState(a.ts, {a.domain})
  }

  predicate Alerts(max: int, scan: Nanos, s: State, a: Attempt) {
    |Entered(Ticked(s, a.ts, scan).ips, a, scan).domains| >= max
  }

  function Next(max: int, scan: Nanos, s: State, a: Attempt): State {
    var t := Ticked(s, a.ts, scan);
    if Alerts(max, scan, s, a) then t.(ips := t.ips - {a.ip})
    else t.(ips := t.ips[a.ip := Entered(t.ips, a, scan)])
  }

  function Run(max: int, scan: Nanos, attempts: seq<Attempt>): State {
    if attempts == [] then State(map[], 0)
    else Next(max, scan, Run(max, scan, attempts[..|attempts| - 1]), attempts[|attempts| - 1])
  }

  // ---- the module ----

  class Module {
    const maxDomains: int
    const scanTime: Nanos
    var states: map<string, IpState>
    var callCount: nat

    ghost function View(): State reads this { State(states, callCount) }

    constructor (maxDomains: int, scanTime: Nanos)
      ensures this.maxDomains == maxDomains && this.scanTime == scanTime && View() == State(map[], 0)
    {
      this.maxDomains, this.scanTime := maxDomains, scanTime;
      states, callCount := map[], 0;
    }

    method Handle(ev: Event) returns (alerts: seq<Alert>)
      modifies this
      ensures if Considered(ev) then View() == Next(maxDomains, scanTime, old(View()), AttemptOf(ev))
              else View() == old(View())
      ensures alerts == if Considered(ev) && Alerts(maxDomains, scanTime, old(View()), AttemptOf(ev))
                        then [Alert("domain_discovery", 75, BlockIp, ev.ts, ev.ip, "")] else []
    {
      hide ExtractDomain, Running;
      if ev.kind != AuthFailed || ev.ip == "" || ev.account == "" { return []; }
      var domain := ExtractDomain(ev.account);
      if domain == "" { return []; }
      callCount := callCount + 1;
      if callCount >= PRUNE_EVERY {
        callCount := 0;
        PruneExpired(ev.ts);
      }
      assert View() == Ticked(old(View()), ev.ts, scanTime);
      var state;
      if ev.ip !in states || ev.ts - states[ev.ip].windowStart >= scanTime {
        state := IpState(ev.ts, {});
      } else {
        state := states[ev.ip];
      }
      state := state.(domains := state.domains + {domain});
      states := states[ev.ip := state];
      if |state.domains| < maxDomains { return []; }
      states := states - {ev.ip};
      alerts := [Alert("domain_discovery", 75, BlockIp, ev.ts, ev.ip, "")];
    }

    method PruneExpired(now: Nanos)
      modifies this`states
      ensures states == Running(old(states), now, scanTime)
    {
      var rest := states.Keys;
      while rest != {}
        invariant rest <= old(states).Keys
        invariant forall ip :: ip in states <==>
                    ip in old(states) && (ip in rest || !Over(old(states)[ip], now, scanTime))
        invariant forall ip <- states :: states[ip] == old(states)[ip]
      {
        var ip :| ip in rest;
        if now - states[ip].windowStart >= scanTime { states := states - {ip}; }
        rest := rest - {ip};
      }
    }
  }

  // ---- the definition on the full history ----

  /** The tumbling window an IP is in after the attempts, if it has one: it began with the
      first attempt after the previous window (or alert) and holds the domains since. Nothing
      is ever pruned. */
  function WindowOf(max: int, scan: Nanos, attempts: seq<Attempt>, ip: string): map<string, IpState> {
    if attempts == [] then map[]
    else
      var before, a := WindowOf(max, scan, attempts[..|attempts| - 1], ip), attempts[|attempts| - 1];
      if a.ip != ip then before
      else
        var w := Entered(before, a, scan);
        if |w.domains| >= max then map[] else map[ip := w]
  }

  ghost predicate Chronological(attempts: seq<Attempt>) {
    forall i, j :: 0 <= i < j < |attempts| ==> attempts[i].ts <= attempts[j].ts
  }

  /** What the module holds of an IP is its full-history window, unless that one is over. */
  ghost predicate SameWindow(ips: map<string, IpState>, w: map<string, IpState>, ip: string, now: Nanos, scan: Nanos) {
    && (ip in ips ==> ip in w && ips[ip] == w[ip])
    && (ip in w && ip !in ips ==> Over(w[ip], now, scan))
  }

  lemma {:induction false} PruningInvisible(max: int, scan: Nanos, attempts: seq<Attempt>, ip: string, now: Nanos)
    requires Chronological(attempts) && (attempts != [] ==> attempts[|attempts| - 1].ts <= now)
    ensures SameWindow(Run(max, scan, attempts).ips, WindowOf(max, scan, attempts, ip), ip, now, scan)
  {
    if attempts != [] {
      var init, a := attempts[..|attempts| - 1], attempts[|attempts| - 1];
      PruningInvisible(max, scan, init, ip, a.ts);
      assert Run(max, scan, attempts) == Next(max, scan, Run(max, scan, init), a);
    }
  }

  /** With times in order an attempt alerts exactly when the full-history window of its IP,
      with its domain added, reaches the threshold of different domains; and then it holds
      exactly that many. */
  lemma AlertsAsDefined(max: int, scan: Nanos, attempts: seq<Attempt>, a: Attempt)
    requires max >= 1 && Chronological(attempts + [a])
    ensures Alerts(max, scan, Run(max, scan, attempts), a)
        <==> |Entered(WindowOf(max, scan, attempts, a.ip), a, scan).domains| == max
  {
    var all := attempts + [a];
    assert all[|attempts|] == a && forall i :: 0 <= i < |attempts| ==> all[i] == attempts[i];
    PruningInvisible(max, scan, attempts, a.ip, a.ts);
    WindowsBelow(max, scan, attempts, a.ip);
  }

  lemma {:induction false} WindowsBelow(max: int, scan: Nanos, attempts: seq<Attempt>, ip: string)
    ensures var w := WindowOf(max, scan, attempts, ip);
            ip in w ==> |w[ip].domains| < max
  {
    if attempts != [] { WindowsBelow(max, scan, attempts[..|attempts| - 1], ip); }
  }

  // ---- over the events themselves ----

  function AttemptIn(input: Option<Event>): Option<Attempt> {
    if input.Some? && Considered(input.value) then Some(AttemptOf(input.value)) else None
  }

  function After(max: int, scan: Nanos, feed: Feeds.Feed): State {
    if feed == [] then State(map[], 0)
    else
      var s := After(max, scan, feed[..|feed| - 1]);
      match AttemptIn(feed[|feed| - 1])
      case None => s
      case Some(a) => Next(max, scan, s, a)
  }

  /** The j-th input alerts. */
  predicate AlertsAt(max: int, scan: Nanos, feed: Feeds.Feed, j: nat)
    requires j < |feed|
  {
    AttemptIn(feed[j]).Some? && Alerts(max, scan, After(max, scan, feed[..j]), AttemptIn(feed[j]).value)
  }

  /** A failure of the IP against an account with a domain. */
  predicate Tries(input: Option<Event>, ip: string) {
    && input.Some? && input.value.kind == AuthFailed && input.value.ip == ip != ""
    && ExtractDomain(input.value.account) != ""
  }

  /** The last attempt of the IP before j. */
  function Previous(feed: Feeds.Feed, j: nat, ip: string): (r: Option<nat>)
    requires j <= |feed|
    ensures r.Some? ==> r.value < j && Tries(feed[r.value], ip)
    ensures forall i :: (if r.Some? then r.value + 1 else 0) <= i < j ==> !Tries(feed[i], ip)
  {
    if j == 0 then None
    else if Tries(feed[j - 1], ip) then Some(j - 1)
    else Previous(feed, j - 1, ip)
  }

  /** Where the window of attempt j began: at j itself, if it is the first of its IP, or comes behind an
      alert, or when the window of the one before it is over; else with that one. */
  function Began(max: int, scan: Nanos, feed: Feeds.Feed, j: nat, ip: string): (b: nat)
    requires j < |feed| && Tries(feed[j], ip)
    ensures b <= j && Tries(feed[b], ip)
    decreases j
  {
    var p := Previous(feed, j, ip);
    if p.None? || AlertsAt(max, scan, feed, p.value) then j
    else
      var b := Began(max, scan, feed, p.value, ip);
      if feed[j].value.ts - feed[b].value.ts >= scan then j else b
  }

  /** The domains of the IP's attempts among the inputs from..to. */
  function Domains(feed: Feeds.Feed, from: nat, to: nat, ip: string): set<string>
    requires to <= |feed|
  {
    set i | from <= i < to && Tries(feed[i], ip) :: ExtractDomain(feed[i].value.account)
  }

  function AttemptsOf(feed: Feeds.Feed): seq<Attempt> {
    if feed == [] then []
    else
      var a := AttemptIn(feed[|feed| - 1]);
      AttemptsOf(feed[..|feed| - 1]) + (if a.Some? then [a.value] else [])
  }

  lemma AttemptsNext(feed: Feeds.Feed, j: nat)
    requires j < |feed|
    ensures var a := AttemptIn(feed[j]);
            AttemptsOf(feed[..j + 1]) == AttemptsOf(feed[..j]) + (if a.Some? then [a.value] else [])
  {
    hide AttemptIn;
    assert feed[..j + 1][..j] == feed[..j];
  }

  lemma {:induction false} AfterIsRun(max: int, scan: Nanos, feed: Feeds.Feed)
    ensures After(max, scan, feed) == Run(max, scan, AttemptsOf(feed))
  {
    if feed != [] {
      hide Next, AttemptIn;
      var attempts, a := AttemptsOf(feed[..|feed| - 1]), AttemptIn(feed[|feed| - 1]);
      AfterIsRun(max, scan, feed[..|feed| - 1]);
      if a.Some? {
        assert (attempts + [a.value])[..|attempts|] == attempts;
      } else {
        assert attempts + [] == attempts;
      }
    }
  }

  lemma {:induction false} AttemptsInOrder(feed: Feeds.Feed, j: nat, now: Nanos)
    requires Feeds.InOrder(feed) && j <= |feed|
    requires forall i :: 0 <= i < j && feed[i].Some? ==> feed[i].value.ts <= now
    ensures var attempts := AttemptsOf(feed[..j]);
            Chronological(attempts) && forall k :: 0 <= k < |attempts| ==> attempts[k].ts <= now
  {
    if j > 0 {
      hide Considered;
      AttemptsNext(feed, j - 1);
      AttemptsInOrder(feed, j - 1, if feed[j - 1].Some? then feed[j - 1].value.ts else now);
    }
  }

  /** The verdict on an attempt, by the tumbling window that the full history gives. */
  lemma AlertsByWindow(max: int, scan: Nanos, feed: Feeds.Feed, j: nat, a: Attempt)
    requires max >= 1 && Feeds.InOrder(feed) && j < |feed| && AttemptIn(feed[j]) == Some(a)
    ensures var w := Entered(WindowOf(max, scan, AttemptsOf(feed[..j]), a.ip), a, scan);
            && (AlertsAt(max, scan, feed, j) <==> |w.domains| == max)
            && (AlertsAt(max, scan, feed, j) <==> |w.domains| >= max)
  {
    hide Alerts, Run, After, Considered;
    AfterIsRun(max, scan, feed[..j]);
    AttemptsInOrder(feed, j, a.ts);
    AlertsAsDefined(max, scan, AttemptsOf(feed[..j]), a);
    WindowsBelow(max, scan, AttemptsOf(feed[..j]), a.ip);
  }

  /** The full-history window behind the first k inputs, read off the inputs. */
  ghost predicate WindowRead(max: int, scan: Nanos, feed: Feeds.Feed, k: nat, ip: string, w: map<string, IpState>)
    requires k <= |feed|
  {
    var p := Previous(feed, k, ip);
    if p.None? || AlertsAt(max, scan, feed, p.value) then w == map[]
    else
      var b := Began(max, scan, feed, p.value, ip);
      w == map[ip := IpState(feed[b].value.ts, Domains(feed, b, k, ip))]
  }

  lemma {:induction false} WindowIsRead(max: int, scan: Nanos, feed: Feeds.Feed, k: nat, ip: string)
    requires max >= 1 && Feeds.InOrder(feed) && k <= |feed| && ip != ""
    ensures WindowRead(max, scan, feed, k, ip, WindowOf(max, scan, AttemptsOf(feed[..k]), ip))
    decreases k, 0
  {
    hide AlertsAt, Feeds.InOrder, Domains, Entered, WindowOf, Considered;
    if k == 0 {
      NothingTried(max, scan, ip);
      assert feed[..0] == [];
    } else {
      AttemptsNext(feed, k - 1);
      var attempts, a := AttemptsOf(feed[..k - 1]), AttemptIn(feed[k - 1]);
      TriesExact(feed[k - 1], ip);
      if a.Some? { WindowNext(max, scan, attempts, a.value, ip); } else { assert attempts + [] == attempts; }
      if Tries(feed[k - 1], ip) {
        EnteredIsRead(max, scan, feed, k - 1, a.value);
        AlertsByWindow(max, scan, feed, k - 1, a.value);
      } else {
        WindowIsRead(max, scan, feed, k - 1, ip);
        DomainsSame(feed, k, ip);
      }
    }
  }

  lemma EnteredIsRead(max: int, scan: Nanos, feed: Feeds.Feed, j: nat, a: Attempt)
    requires max >= 1 && Feeds.InOrder(feed) && j < |feed| && Tries(feed[j], a.ip) && AttemptIn(feed[j]) == Some(a)
    ensures var b := Began(max, scan, feed, j, a.ip);
            Entered(WindowOf(max, scan, AttemptsOf(feed[..j]), a.ip), a, scan)
            == IpState(feed[b].value.ts, Domains(feed, b, j + 1, a.ip))
    decreases j, 1
  {
    hide AlertsAt, Feeds.InOrder, Domains, WindowOf, Considered;
    WindowIsRead(max, scan, feed, j, a.ip);
    DomainsNext(feed, Began(max, scan, feed, j, a.ip), j, a);
    DomainsNone(feed, j, a.ip);
  }

  lemma NothingTried(max: int, scan: Nanos, ip: string)
    ensures WindowOf(max, scan, AttemptsOf([]), ip)
         == map[]
  {
  }

  lemma TriesExact(input: Option<Event>, ip: string)
    requires ip != ""
    ensures var a := AttemptIn(input);
            Tries(input, ip) <==> a.Some? && a.value.ip == ip
  {
    hide ExtractDomain;
    NoDomain();
  }

  lemma NoDomain()
    ensures ExtractDomain("") == ""
  {
  }

  lemma WindowNext(max: int, scan: Nanos, attempts: seq<Attempt>, a: Attempt, ip: string)
    ensures WindowOf(max, scan, attempts + [a], ip) ==
            var before := WindowOf(max, scan, attempts, ip);
            if a.ip != ip then before
            else
              var w := Entered(before, a, scan);
              if |w.domains| >= max then map[] else map[ip := w]
  {
    assert (attempts + [a])[..|attempts|] == attempts;
  }

  lemma DomainsSame(feed: Feeds.Feed, k: nat, ip: string)
    requires 0 < k <= |feed| && !Tries(feed[k - 1], ip)
    ensures forall from: nat :: Domains(feed, from, k, ip) == Domains(feed, from, k - 1, ip)
  {
  }

  lemma DomainsNext(feed: Feeds.Feed, from: nat, j: nat, a: Attempt)
    requires from <= j < |feed| && Tries(feed[j], a.ip) && AttemptIn(feed[j]) == Some(a)
    ensures Domains(feed, from, j + 1, a.ip)
         == Domains(feed, from, j, a.ip) + {a.domain}
  {
    hide ExtractDomain;
  }

  lemma DomainsNone(feed: Feeds.Feed, j: nat, ip: string)
    requires j <= |feed|
    ensures Domains(feed, j, j, ip)
         == {}
  {
  }

  /** Whatever the events, as long as their times are in order: one alerts if and only if it is a failure
      with an IP and a domain, and the different domains that its IP tried since the window began are
      with its own exactly as many as the threshold. */
  lemma AlertsExactly(max: int, scan: Nanos, feed: Feeds.Feed, j: nat, ip: string)
    requires max >= 1 && Feeds.InOrder(feed) && j < |feed|
    ensures Tries(feed[j], ip) ==>
              (AlertsAt(max, scan, feed, j) <==>
               |Domains(feed, Began(max, scan, feed, j, ip), j + 1, ip)| == max)
    ensures AlertsAt(max, scan, feed, j) ==> Tries(feed[j], feed[j].value.ip)
  {
    hide Alerts, Feeds.InOrder, Domains, Entered, WindowOf, After, ExtractDomain;
    NoDomain();
    if Tries(feed[j], ip) {
      TriesExact(feed[j], ip);
      var a := AttemptIn(feed[j]).value;
      EnteredIsRead(max, scan, feed, j, a);
      AlertsByWindow(max, scan, feed, j, a);
    }
  }

  // ---- what is forgotten ----

  lemma {:induction false} CallsCounted(max: int, scan: Nanos, attempts: seq<Attempt>)
    ensures Run(max, scan, attempts).calls
         == |attempts| % 5_000
  {
    if attempts != [] {
      hide Alerts, Entered, Running;
      CallsCounted(max, scan, attempts[..|attempts| - 1]);
    }
  }

  /** Behind every 5000th attempt no window is left that was over by then. */
  lemma PruneForgets(max: int, scan: Nanos, attempts: seq<Attempt>, ip: string)
    requires attempts != [] && |attempts| % 5_000 == 0 && ip in Run(max, scan, attempts).ips && scan > 0
    ensures attempts[|attempts| - 1].ts - Run(max, scan, attempts).ips[ip].windowStart < scan
  {
    CallsCounted(max, scan, attempts[..|attempts| - 1]);
  }
}
