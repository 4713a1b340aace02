/** Account takeover: many failures of one IP against an account, then a success from that IP
    or an outgoing message of the account. Failures may arrive out of order; the window is
    kept sorted by insertion. */
module AccountTakeover {
  import opened Events
  import opened Windows
  import opened Time

  datatype Config = Config(minFailures: int, window: Nanos)

  /** New fills in the defaults. */
  function WithDefaults(cfg: Config): (r: Config)
    ensures r.minFailures >= 1 && r.window >= 1
    ensures r.minFailures == cfg.minFailures || (cfg.minFailures <= 0 && r.minFailures == 5)
    ensures r.window == cfg.window || (cfg.window <= 0 && r.window == 600 * SECOND)
  {
    Config(if cfg.minFailures <= 0 then 5 else cfg.minFailures, if cfg.window <= 0 then 10 * MINUTE else cfg.window)
  }

  type Failures = map<string, seq<Stamped<string>>>

  datatype State = State(failures: Failures, calls: nat)

  // ---- specification ----

  /** Insertion behind every record that is not later. */
  function Insert(s: seq<Stamped<string>>, rec: Stamped<string>): seq<Stamped<string>> {
    if s == [] || s[|s| - 1].ts <= rec.ts then s + [rec]
    else Insert(s[..|s| - 1], rec) + [s[|s| - 1]]
  }

  function Count(s: seq<Stamped<string>>, ip: string): nat {
    if s == [] then 0 else Count(s[..|s| - 1], ip) + (if s[|s| - 1].tag == ip then 1 else 0)
  }

  /** pruneExpired: every account trimmed, the empty ones dropped. */
  function Pruned(failures: Failures, cutoff: Nanos): Failures {
    map a | a in failures && Trim(failures[a], cutoff) != [] :: Trim(failures[a], cutoff)
  }

  function Ticked(cfg: Config, s: State, now: Nanos): State {
    if s.calls + 1 >= PRUNE_EVERY then State(Pruned(s.failures, now - cfg.window), 0) else s.(calls := s.calls + 1)
  }

  /** The failures of an account that are still in the window of the event. */
  function Recent(cfg: Config, failures: Failures, ev: Event): seq<Stamped<string>> {
    Trim(Window(failures, ev.account), ev.ts - cfg.window)
  }

  /** The failure counts that make a success, or an accepted message, an alert. */
  predicate SuccessAlerts(cfg: Config, failures: Failures, ev: Event) {
    ev.account != "" && ev.ip != "" && Count(Recent(cfg, failures, ev), ev.ip) >= cfg.minFailures
  }

  ghost predicate SomeIpReaches(s: seq<Stamped<string>>, min: int) { exists ip :: Count(s, ip) >= min }

  ghost predicate MessageAlerts(cfg: Config, failures: Failures, ev: Event) {
    ev.account != "" && SomeIpReaches(Recent(cfg, failures, ev), cfg.minFailures)
  }

  ghost predicate Alerting(cfg: Config, s: State, ev: Event) {
    var f := Ticked(cfg, s, ev.ts).failures;
    (ev.kind == AuthSuccess && SuccessAlerts(cfg, f, ev)) || (ev.kind == QueueAccepted && MessageAlerts(cfg, f, ev))
  }

  function Next(cfg: Config, s: State, ev: Event): State {
    var t := Ticked(cfg, s, ev.ts);
    var recent := Recent(cfg, t.failures, ev);
    match ev.kind
    case AuthFailed =>
      if ev.ip == "" || ev.account == "" then t
      else t.(failures := t.failures[ev.account := Insert(recent, Stamped(ev.ts, ev.ip))])
    case AuthSuccess =>
      if ev.account == "" || ev.ip == "" || ev.account !in t.failures then t
      else if SuccessAlerts(cfg, t.failures, ev) then t.(failures := t.failures - {ev.account})
      else t.(failures := t.failures[ev.account := recent])
    case QueueAccepted =>
      if ev.account == "" || ev.account !in t.failures then t
      else if |recent| < cfg.minFailures then t.(failures := t.failures[ev.account := recent])
      else t.(failures := t.failures - {ev.account})
    case _ => t
  }

  /** What every reachable state satisfies, whatever the order of arrival. */
  ghost predicate WellKept(failures: Failures) {
    forall a <- failures :: Sorted(failures[a]) && forall i :: 0 <= i < |failures[a]| ==> failures[a][i].tag != ""
  }

  // ---- the module ----

  class Module {
    const cfg: Config
    var state: Failures
    var callCount: nat

    ghost function View(): State reads this { State(state, callCount) }

    ghost predicate Valid() reads this { cfg.minFailures >= 1 && WellKept(state) }

    constructor (cfg: Config)
      ensures Valid() && this.cfg == WithDefaults(cfg) && View() == State(map[], 0)
    {
      this.cfg := WithDefaults(cfg);
      state, callCount := map[], 0;
    }

    method Handle(ev: Event) returns (alerts: seq<Alert>)
      requires Valid()
      modifies this
      ensures Valid() && View() == Next(cfg, old(View()), ev)
      ensures alerts != [] <==> Alerting(cfg, old(View()), ev)
      ensures |alerts| <= 1
      ensures forall a <- alerts ::
                && a.action == SuspendAccount && a.account == ev.account && a.ts == ev.ts
                && var recent := Recent(cfg, Ticked(cfg, old(View()), ev.ts).failures, ev);
                   Count(recent, a.ip) >= cfg.minFailures
                   && (ev.kind == AuthSuccess ==> a.ip == ev.ip)
                   && (ev.kind == QueueAccepted ==> forall ip :: Count(recent, ip) <= Count(recent, a.ip))
    {
      hide Trim, Count, Insert, Pruned;
      callCount := callCount + 1;
      if callCount >= PRUNE_EVERY {
        callCount := 0;
        PruneExpired(ev.ts);
      }
      assert View() == Ticked(cfg, old(View()), ev.ts);
      match ev.kind {
        case AuthFailed =>
          RecordFailure(ev);
          alerts := [];
        case AuthSuccess => alerts := CheckPattern1(ev);
        case QueueAccepted => alerts := CheckPattern2(ev);
        case _ => alerts := [];
      }
    }

    method PruneExpired(now: Nanos)
      requires Valid()
      modifies this`state
      ensures Valid() && state == Pruned(old(state), now - cfg.window)
    {
      hide Trim, WellKept;
      var cutoff := now - cfg.window;
      var rest := state.Keys;
      ghost var before := state;
      PrunedWellKept(before, cutoff);
      while rest != {}
        invariant rest <= before.Keys
        invariant forall a :: a in state <==> a in before && (a in rest || Trim(before[a], cutoff) != [])
        invariant forall a <- state :: state[a] == if a in rest then before[a] else Trim(before[a], cutoff)
      {
        var a :| a in rest;
        var live := TrimOld(state[a], cutoff);
        state := if live == [] then state - {a} else state[a := live];
        rest := rest - {a};
      }
      assert state == Pruned(before, cutoff);
    }

    method RecordFailure(ev: Event)
      requires Valid()
      modifies this`state
      ensures Valid()
      ensures state == if ev.ip == "" || ev.account == "" then old(state)
                       else old(state)[ev.account := Insert(Recent(cfg, old(state), ev), Stamped(ev.ts, ev.ip))]
    {
      if ev.ip == "" || ev.account == "" { return; }
      hide Trim, Insert, Sorted;
      var rec := Stamped(ev.ts, ev.ip);
      NoneIsKept();
      RecentInsert(Window(state, ev.account), ev.ts - cfg.window, rec);
      var recent := TrimOld(if ev.account in state then state[ev.account] else [], ev.ts - cfg.window);
      recent := AppendSorted(recent, rec);
      state := state[ev.account := recent];
    }

    method CheckPattern1(ev: Event) returns (alerts: seq<Alert>)
      requires Valid() && ev.kind == AuthSuccess
      modifies this`state
      ensures Valid()
      ensures alerts == if SuccessAlerts(cfg, old(state), ev)
                        then [Alert("account_takeover", 95, SuspendAccount, ev.ts, ev.ip, ev.account)] else []
      ensures state == if ev.account == "" || ev.ip == "" || ev.account !in old(state) then old(state)
                       else if SuccessAlerts(cfg, old(state), ev) then old(state) - {ev.account}
                       else old(state)[ev.account := Recent(cfg, old(state), ev)]
    {
      hide Trim, Count;
      NoFailuresNoCount(cfg, state, ev);
      if ev.account == "" || ev.ip == "" || ev.account !in state { return []; }
      var recent := TrimOld(state[ev.account], ev.ts - cfg.window);
      TrimKeeps(state[ev.account], ev.ts - cfg.window);
      state := state[ev.account := recent];
      var same := CountIp(recent, ev.ip);
      if same < cfg.minFailures { return []; }
      state := state - {ev.account};
      alerts := [Alert("account_takeover", 95, SuspendAccount, ev.ts, ev.ip, ev.account)];
    }

    method CheckPattern2(ev: Event) returns (alerts: seq<Alert>)
      requires Valid() && ev.kind == QueueAccepted
      modifies this`state
      ensures Valid()
      ensures alerts != [] <==> MessageAlerts(cfg, old(state), ev)
      ensures alerts != [] ==>
                && |alerts| == 1
                && var a := alerts[0];
                   && a == Alert("account_takeover", 80, SuspendAccount, ev.ts, a.ip, ev.account)
                   && Count(Recent(cfg, old(state), ev), a.ip) >= cfg.minFailures
                   && forall ip :: Count(Recent(cfg, old(state), ev), ip) <= Count(Recent(cfg, old(state), ev), a.ip)
      ensures state == if ev.account == "" || ev.account !in old(state) then old(state)
                       else if |Recent(cfg, old(state), ev)| < cfg.minFailures
                       then old(state)[ev.account := Recent(cfg, old(state), ev)]
                       else old(state) - {ev.account}
    {
      hide Trim, Count;
      NoFailuresNoCount(cfg, state, ev);
      if ev.account == "" || ev.account !in state { return []; }
      var recent := TrimOld(state[ev.account], ev.ts - cfg.window);
      TrimKeeps(state[ev.account], ev.ts - cfg.window);
      CountAtMostAll(recent);
      state := state[ev.account := recent];
      assert recent == Recent(cfg, old(state), ev);
      if |recent| < cfg.minFailures { return []; }
      var attacker := DominantIp(recent);
      var dominant := CountIp(recent, attacker);
      state := state - {ev.account};
      assert recent == Recent(cfg, old(state), ev) && dominant == Count(recent, attacker);
      if dominant < cfg.minFailures { return []; }
      alerts := [Alert("account_takeover", 80, SuspendAccount, ev.ts, attacker, ev.account)];
    }
  }

  /** Appends the record and moves it back, swap by swap, past every later one. */
  method AppendSorted(s: seq<Stamped<string>>, rec: Stamped<string>) returns (f: seq<Stamped<string>>)
    ensures f == Insert(s, rec)
  {
    hide Insert;
    f := s + [rec];
    var i := |f| - 1;
    while i > 0 && f[i].ts < f[i - 1].ts
      invariant 0 <= i <= |s|
      invariant f == s[..i] + [rec] + s[i..]
      invariant forall k :: i <= k < |s| ==> s[k].ts > rec.ts
    {
      f := f[i := f[i - 1]][i - 1 := f[i]];
      i := i - 1;
    }
    InsertAt(s, rec, i);
  }

  method CountIp(records: seq<Stamped<string>>, ip: string) returns (n: nat)
    ensures n == Count(records, ip)
  {
    n := 0;
    for i := 0 to |records|
      invariant n == Count(records[..i], ip)
    {
      assert records[..i + 1][..i] == records[..i];
      if records[i].tag == ip { n := n + 1; }
    }
    assert records[..|records|] == records;
  }

  /** dominantIP: an IP of maximal count, whatever the order in which the counts are visited. */
  method DominantIp(records: seq<Stamped<string>>) returns (best: string)
    requires records != [] && forall i :: 0 <= i < |records| ==> records[i].tag != ""
    ensures Count(records, best) >= 1
    ensures forall ip :: Count(records, ip) <= Count(records, best)
  {
    var counts := CountAll(records);
    var rest := counts.Keys;
    var max := 0;
    best := "";
    while rest != {}
      invariant rest <= counts.Keys
      invariant best == "" <==> rest == counts.Keys
      invariant best != "" ==> best in counts && counts[best] == max
      invariant forall ip <- counts.Keys - rest :: counts[ip] <= max
    {
      var ip :| ip in rest;
      if counts[ip] > max || best == "" {
        max, best := counts[ip], ip;
      }
      rest := rest - {ip};
    }
    assert Count(records, records[|records| - 1].tag) >= 1;
    assert records[|records| - 1].tag in counts;
  }

  method CountAll(records: seq<Stamped<string>>) returns (counts: map<string, nat>)
    requires forall i :: 0 <= i < |records| ==> records[i].tag != ""
    ensures forall ip :: ip in counts <==> Count(records, ip) >= 1
    ensures forall ip <- counts :: counts[ip] == Count(records, ip) && ip != ""
  {
    counts := map[];
    for i := 0 to |records|
      invariant forall ip :: ip in counts <==> Count(records[..i], ip) >= 1
      invariant forall ip <- counts :: counts[ip] == Count(records[..i], ip) && ip != ""
    {
      assert records[..i + 1][..i] == records[..i];
      var ip := records[i].tag;
      counts := counts[ip := (if ip in counts then counts[ip] else 0) + 1];
    }
    assert records[..|records|] == records;
  }

  // ---- the window stays sorted ----

  /** Insertion at the place the swaps end is the insertion of the specification. */
  lemma {:induction false} InsertAt(s: seq<Stamped<string>>, rec: Stamped<string>, i: nat)
    requires i <= |s| && (i == 0 || s[i - 1].ts <= rec.ts)
    requires forall k :: i <= k < |s| ==> s[k].ts > rec.ts
    ensures Insert(s, rec) == s[..i] + [rec] + s[i..]
  {
    if i < |s| {
      var init := s[..|s| - 1];
      InsertAt(init, rec, i);
      assert init[..i] == s[..i] && init[i..] + [s[|s| - 1]] == s[i..];
    } else if s != [] {
      assert s[..i] == s;
    }
  }

  lemma {:induction false} InsertContents(s: seq<Stamped<string>>, rec: Stamped<string>)
    ensures multiset(Insert(s, rec))
         == multiset(s) + multiset{rec}
    ensures NotAfter(s, rec.ts) ==> Insert(s, rec) == s + [rec]
  {
    if s != [] && !(s[|s| - 1].ts <= rec.ts) {
      var init, last := s[..|s| - 1], s[|s| - 1];
      assert s == init + [last];
      InsertContents(init, rec);
    }
  }

  lemma {:induction false} InsertSorted(s: seq<Stamped<string>>, rec: Stamped<string>, bound: Nanos)
    requires Sorted(s) && NotAfter(s, bound) && rec.ts <= bound
    ensures Sorted(Insert(s, rec)) && NotAfter(Insert(s, rec), bound)
  {
    if s != [] && !(s[|s| - 1].ts <= rec.ts) {
      InsertSorted(s[..|s| - 1], rec, s[|s| - 1].ts);
    }
  }

  /** Whatever the time of the new failure: the window stays sorted, and holds the old
      failures and the new one, each once. */
  lemma InsertKeeps(s: seq<Stamped<string>>, rec: Stamped<string>)
    requires Sorted(s)
    ensures Sorted(Insert(s, rec)) && multiset(Insert(s, rec)) == multiset(s) + multiset{rec}
    ensures NotAfter(s, rec.ts) ==> Insert(s, rec) == s + [rec]
    ensures rec.tag != "" && (forall i :: 0 <= i < |s| ==> s[i].tag != "") ==>
              forall i :: 0 <= i < |Insert(s, rec)| ==> Insert(s, rec)[i].tag != ""
  {
    hide Insert;
    InsertContents(s, rec);
    InsertSorted(s, rec, if s != [] && s[|s| - 1].ts > rec.ts then s[|s| - 1].ts else rec.ts);
    var ins := Insert(s, rec);
    forall i | 0 <= i < |ins| ensures ins[i] in s || ins[i] == rec {
      assert ins[i] in multiset(ins);
    }
  }

  lemma TrimKeeps(s: seq<Stamped<string>>, cutoff: Nanos)
    requires Sorted(s)
    ensures Sorted(Trim(s, cutoff)) && Trim(s, cutoff) == Retained(s, cutoff)
    ensures forall i :: 0 <= i < |Trim(s, cutoff)| ==> Trim(s, cutoff)[i] in s
    ensures (forall i :: 0 <= i < |s| ==> s[i].tag != "") ==>
              forall i :: 0 <= i < |Trim(s, cutoff)| ==> Trim(s, cutoff)[i].tag != ""
  {
    hide Trim, Retained;
    TrimIsExactFilter(s, cutoff);
    var k := TrimSuffix(s, cutoff);
    assert forall i :: 0 <= i < |s[k..]| ==> s[k..][i] == s[k + i];
  }

  lemma PrunedWellKept(failures: Failures, cutoff: Nanos)
    requires WellKept(failures)
    ensures WellKept(Pruned(failures, cutoff))
  {
    hide Trim, Sorted;
    forall a <- failures { TrimKeeps(failures[a], cutoff); }
  }

  lemma {:induction false} CountAtMostAll(s: seq<Stamped<string>>)
    ensures forall ip :: Count(s, ip) <= |s|
  {
    if s != [] { CountAtMostAll(s[..|s| - 1]); }
  }

  lemma NoFailuresNoCount(cfg: Config, f: Failures, ev: Event)
    ensures ev.account !in f ==> forall ip :: Count(Recent(cfg, f, ev), ip) == 0
  {
  }

  lemma NoneIsKept()
    ensures Sorted<string>([])
  {
  }

  lemma RecentInsert(s: seq<Stamped<string>>, cutoff: Nanos, rec: Stamped<string>)
    requires Sorted(s) && rec.tag != "" && forall i :: 0 <= i < |s| ==> s[i].tag != ""
    ensures Sorted(Insert(Trim(s, cutoff), rec))
    ensures forall i :: 0 <= i < |Insert(Trim(s, cutoff), rec)| ==> Insert(Trim(s, cutoff), rec)[i].tag != ""
  {
    hide Trim, Insert;
    TrimKeeps(s, cutoff);
    InsertKeeps(Trim(s, cutoff), rec);
  }

  // ---- every run, in any order of arrival ----

  lemma NextWellKept(cfg: Config, s: State, ev: Event)
    requires WellKept(s.failures)
    ensures WellKept(Ticked(cfg, s, ev.ts).failures) && WellKept(Next(cfg, s, ev).failures)
  {
    hide Trim, Insert, Count, Sorted, Pruned;
    PrunedWellKept(s.failures, ev.ts - cfg.window);
    NoneIsKept();
    var t := Ticked(cfg, s, ev.ts);
    assert WellKept(t.failures);
    var w := Window(t.failures, ev.account);
    TrimKeeps(w, ev.ts - cfg.window);
    if ev.ip != "" { RecentInsert(w, ev.ts - cfg.window, Stamped(ev.ts, ev.ip)); }
  }

  lemma {:induction false} RunsWellKept(cfg: Config, evs: seq<Event>)
    ensures WellKept(Run(cfg, evs).failures)
  {
    hide WellKept, Next;
    if evs == [] { NothingWellKept(); } else {
      RunsWellKept(cfg, evs[..|evs| - 1]);
      NextWellKept(cfg, Run(cfg, evs[..|evs| - 1]), evs[|evs| - 1]);
    }
  }

  lemma NothingWellKept()
    ensures WellKept(map[])
  {
  }

  /** After any run, whatever the order of the times: an accepted message alerts exactly when
      some IP has at least the minimum of failures among those kept of the account that are
      not before the cutoff. */
  lemma MessageAlertsExactly(cfg: Config, evs: seq<Event>, ev: Event)
    requires ev.kind == QueueAccepted && ev.account != ""
    ensures var kept := Window(Ticked(cfg, Run(cfg, evs), ev.ts).failures, ev.account);
            Alerting(cfg, Run(cfg, evs), ev) <==> SomeIpReaches(Retained(kept, ev.ts - cfg.window), cfg.minFailures)
  {
    hide Trim, Retained, Run, Next, Count, Ticked;
    RunsWellKept(cfg, evs);
    NextWellKept(cfg, Run(cfg, evs), ev);
    NoneIsKept();
    TrimIsExactFilter(Window(Ticked(cfg, Run(cfg, evs), ev.ts).failures, ev.account), ev.ts - cfg.window);
  }

  // ---- pruning is invisible ----

  function NextUnpruned(cfg: Config, s: State, ev: Event): State {
    Next(cfg, s.(calls := 0), ev).(calls := 0)
  }

  function Run(cfg: Config, evs: seq<Event>): State {
    if evs == [] then State(map[], 0) else Next(cfg, Run(cfg, evs[..|evs| - 1]), evs[|evs| - 1])
  }

  function RunUnpruned(cfg: Config, evs: seq<Event>): State {
    if evs == [] then State(map[], 0) else NextUnpruned(cfg, RunUnpruned(cfg, evs[..|evs| - 1]), evs[|evs| - 1])
  }

  ghost predicate Chronological(evs: seq<Event>) {
    forall i, j :: 0 <= i < j < |evs| ==> evs[i].ts <= evs[j].ts
  }

  /** From time `now` on both states retain the same failures of the account. */
  ghost predicate SameRecent(cfg: Config, a: Failures, b: Failures, acct: string, now: Nanos) {
    Trim(Window(a, acct), now - cfg.window) == Trim(Window(b, acct), now - cfg.window)
  }

  lemma {:induction false} TrimTwice(s: seq<Stamped<string>>, early: Nanos, late: Nanos)
    requires early <= late
    ensures Trim(Trim(s, early), late)
         == Trim(s, late)
  {
    if s != [] && s[0].ts < early { TrimTwice(s[1..], early, late); }
  }

  lemma SameRecentLater(cfg: Config, a: Failures, b: Failures, acct: string, now: Nanos, later: Nanos)
    requires SameRecent(cfg, a, b, acct, now) && now <= later
    ensures SameRecent(cfg, a, b, acct, later)
  {
    hide Trim;
    TrimTwice(Window(a, acct), now - cfg.window, later - cfg.window);
    TrimTwice(Window(b, acct), now - cfg.window, later - cfg.window);
  }

  lemma TickSameRecent(cfg: Config, s: State, acct: string, now: Nanos)
    ensures SameRecent(cfg, Ticked(cfg, s, now).failures, s.failures, acct, now)
  {
    TrimTwice(Window(s.failures, acct), now - cfg.window, now - cfg.window);
  }

  lemma TrimNothing(cutoff: Nanos)
    ensures Trim<string>([], cutoff)
         == []
  {
  }

  /** One event, after ticking, keeps two states alike that retain the same. */
  lemma StepSameRecent(cfg: Config, a: State, b: State, ev: Event, acct: string)
    requires cfg.minFailures >= 1
    requires a.calls + 1 < PRUNE_EVERY && b.calls + 1 < PRUNE_EVERY
    requires SameRecent(cfg, a.failures, b.failures, ev.account, ev.ts)
    requires SameRecent(cfg, a.failures, b.failures, acct, ev.ts)
    ensures SameRecent(cfg, Next(cfg, a, ev).failures, Next(cfg, b, ev).failures, acct, ev.ts)
  {
    hide Trim, Insert, Count;
    var ra, rb := Recent(cfg, a.failures, ev), Recent(cfg, b.failures, ev);
    assert ra == rb;
    TrimNothing(ev.ts - cfg.window);
    TrimTwice(Window(a.failures, ev.account), ev.ts - cfg.window, ev.ts - cfg.window);
    TrimTwice(Window(b.failures, ev.account), ev.ts - cfg.window, ev.ts - cfg.window);
    NoFailuresNoCount(cfg, a.failures, ev);
    NoFailuresNoCount(cfg, b.failures, ev);
  }

  /** A state that has ticked for this event behaves like one that is not due. */
  lemma TickedNext(cfg: Config, s: State, ev: Event)
    ensures Next(cfg, Ticked(cfg, s, ev.ts).(calls := 0), ev).failures
         == Next(cfg, s, ev).failures
    ensures Alerting(cfg, Ticked(cfg, s, ev.ts).(calls := 0), ev)
         == Alerting(cfg, s, ev)
  {
    hide Trim, Insert, Count, Pruned;
  }

  lemma {:induction false} RunsSameRecent(cfg: Config, evs: seq<Event>, acct: string, now: Nanos)
    requires cfg.minFailures >= 1 && Chronological(evs) && (evs != [] ==> evs[|evs| - 1].ts <= now)
    ensures SameRecent(cfg, Run(cfg, evs).failures, RunUnpruned(cfg, evs).failures, acct, now)
    decreases |evs|, 0
  {
    if evs != [] {
      hide Next, SameRecent, Ticked;
      var init, ev := evs[..|evs| - 1], evs[|evs| - 1];
      var s, u := Run(cfg, init), RunUnpruned(cfg, init);
      var t := Ticked(cfg, s, ev.ts).(calls := 0);
      assert init + [ev] == evs;
      TickedRuns(cfg, init, ev, ev.account);
      TickedRuns(cfg, init, ev, acct);
      StepSameRecent(cfg, t, u.(calls := 0), ev, acct);
      TickedNext(cfg, s, ev);
      SameRecentLater(cfg, Run(cfg, evs).failures, RunUnpruned(cfg, evs).failures, acct, ev.ts, now);
    }
  }

  lemma {:induction false} TickedRuns(cfg: Config, init: seq<Event>, ev: Event, acct: string)
    requires cfg.minFailures >= 1 && Chronological(init + [ev])
    ensures SameRecent(cfg, Ticked(cfg, Run(cfg, init), ev.ts).failures, RunUnpruned(cfg, init).failures, acct, ev.ts)
    decreases |init|, 1
  {
    var all := init + [ev];
    assert all[|init|] == ev && forall i :: 0 <= i < |init| ==> all[i] == init[i];
    hide Ticked;
    RunsSameRecent(cfg, init, acct, ev.ts);
    TickSameRecent(cfg, Run(cfg, init), acct, ev.ts);
  }

  lemma AlertingByRecent(cfg: Config, a: State, b: State, ev: Event)
    requires a.calls + 1 < PRUNE_EVERY && b.calls + 1 < PRUNE_EVERY
    requires SameRecent(cfg, a.failures, b.failures, ev.account, ev.ts)
    ensures Alerting(cfg, a, ev) <==> Alerting(cfg, b, ev)
  {
    hide Trim, Count, Pruned;
    assert Recent(cfg, a.failures, ev) == Recent(cfg, b.failures, ev);
  }

  /** With times in order the pruning never changes an alert. */
  lemma PruningInvisible(cfg: Config, evs: seq<Event>, ev: Event)
    requires cfg.minFailures >= 1 && Chronological(evs + [ev])
    ensures Alerting(cfg, Run(cfg, evs), ev)
       <==> Alerting(cfg, RunUnpruned(cfg, evs).(calls := 0), ev)
  {
    hide Alerting, SameRecent, Ticked, Run, RunUnpruned;
    TickedRuns(cfg, evs, ev, ev.account);
    TickedNext(cfg, Run(cfg, evs), ev);
    AlertingByRecent(cfg, Ticked(cfg, Run(cfg, evs), ev.ts).(calls := 0), RunUnpruned(cfg, evs).(calls := 0), ev);
  }

  // ---- the definition on the full history ----

  /** Every failure of the account since it was last cleared: nothing trimmed, nothing pruned. A
      success clears when it alerts, an accepted message when enough failures are in the window,
      of whatever IPs. */
  function History(cfg: Config, evs: seq<Event>, account: string): seq<Stamped<string>> {
    if evs == [] then []
    else
      var ev, before := evs[|evs| - 1], History(cfg, evs[..|evs| - 1], account);
      HistoryNext(cfg, before, ev, account)
  }

  function HistoryNext(cfg: Config, before: seq<Stamped<string>>, ev: Event, account: string): seq<Stamped<string>> {
    var recent := Retained(before, ev.ts - cfg.window);
    if ev.account != account || account == "" then before
    else
      match ev.kind
      case AuthFailed => if ev.ip == "" then before else before + [Stamped(ev.ts, ev.ip)]
      case AuthSuccess => if ev.ip != "" && Count(recent, ev.ip) >= cfg.minFailures then [] else before
      case QueueAccepted => if |recent| >= cfg.minFailures then [] else before
      case _ => before
  }

  /** The event alerts by definition. */
  ghost predicate ShouldAlert(cfg: Config, evs: seq<Event>, ev: Event) {
    var recent := Retained(History(cfg, evs, ev.account), ev.ts - cfg.window);
    || (ev.kind == AuthSuccess && ev.account != "" && ev.ip != "" && Count(recent, ev.ip) >= cfg.minFailures)
    || (ev.kind == QueueAccepted && ev.account != "" && SomeIpReaches(recent, cfg.minFailures))
  }

  lemma AgreesTrimmed(w: seq<Stamped<string>>, h: seq<Stamped<string>>, scan: Nanos, now: Nanos)
    requires Agrees(w, h, scan, now)
    ensures Agrees(Trim(w, now - scan), h, scan, now) && Trim(w, now - scan) == Retained(h, now - scan)
  {
    hide Trim, Retained;
    TrimIsExactFilter(w, now - scan);
    RetainedTwice(w, now - scan, now - scan);
    var k := TrimSuffix(w, now - scan);
    assert forall i :: 0 <= i < |w[k..]| ==> w[k..][i] == w[k + i];
  }

  lemma TickAgrees(cfg: Config, s: State, account: string, h: seq<Stamped<string>>, now: Nanos)
    requires Agrees(Window(s.failures, account), h, cfg.window, now)
    ensures Agrees(Window(Ticked(cfg, s, now).failures, account), h, cfg.window, now)
  {
    hide Agrees, Trim;
    AgreesTrimmed(Window(s.failures, account), h, cfg.window, now);
    TrimNothing(now - cfg.window);
  }

  /** One event, once the state has ticked for it. */
  lemma NextAgrees(cfg: Config, t: State, ev: Event, account: string, h: seq<Stamped<string>>)
    requires cfg.minFailures >= 1 && t.calls + 1 < PRUNE_EVERY
    requires Agrees(Window(t.failures, account), h, cfg.window, ev.ts)
    ensures Agrees(Window(Next(cfg, t, ev).failures, account), HistoryNext(cfg, h, ev, account), cfg.window, ev.ts)
  {
    hide Agrees, Trim, Insert, Count, Retained;
    var w := Window(t.failures, account);
    AgreesTrimmed(w, h, cfg.window, ev.ts);
    NothingAgreesWithNothing(cfg.window, ev.ts);
    if ev.account == account {
      var rec := Stamped(ev.ts, ev.ip);
      var recent := Recent(cfg, t.failures, ev);
      AgreesExtended(w, h, cfg.window, rec);
      AgreesNotAfter(recent, h, cfg.window, ev.ts);
      InsertContents(recent, rec);
      NoFailuresNoCount(cfg, t.failures, ev);
      TrimNothing(ev.ts - cfg.window);
    }
  }

  lemma NothingAgreesWithNothing(scan: Nanos, now: Nanos)
    ensures Agrees<string>([], [], scan, now)
  {
  }

  lemma AgreesNotAfter(w: seq<Stamped<string>>, h: seq<Stamped<string>>, scan: Nanos, now: Nanos)
    requires Agrees(w, h, scan, now)
    ensures NotAfter(w, now)
  {
  }

  lemma {:induction false} RunAgrees(cfg: Config, evs: seq<Event>, account: string, now: Nanos)
    requires cfg.minFailures >= 1 && Chronological(evs) && (evs != [] ==> evs[|evs| - 1].ts <= now)
    ensures Agrees(Window(Run(cfg, evs).failures, account), History(cfg, evs, account), cfg.window, now)
  {
    if evs == [] {
      NothingAgreesWithNothing(cfg.window, now);
    } else {
      var init, ev := evs[..|evs| - 1], evs[|evs| - 1];
      RunAgrees(cfg, init, account, ev.ts);
      hide Agrees, Ticked, Next, HistoryNext;
      var s, h := Run(cfg, init), History(cfg, init, account);
      TickAgrees(cfg, s, account, h, ev.ts);
      NextAgrees(cfg, Ticked(cfg, s, ev.ts).(calls := 0), ev, account, h);
      TickedNext(cfg, s, ev);
      AgreesLater(Window(Run(cfg, evs).failures, account), History(cfg, evs, account), cfg.window, ev.ts, now);
    }
  }

  /** What is in the window of an event is what the history retains. */
  lemma RecentIsHistory(cfg: Config, evs: seq<Event>, ev: Event)
    requires cfg.minFailures >= 1 && Chronological(evs + [ev])
    ensures Recent(cfg, Ticked(cfg, Run(cfg, evs), ev.ts).failures, ev)
         == Retained(History(cfg, evs, ev.account), ev.ts - cfg.window)
  {
    hide *;
    ChronologicalInit(evs, ev);
    RecentIsTrim(cfg, Ticked(cfg, Run(cfg, evs), ev.ts).failures, ev);
    var h := History(cfg, evs, ev.account);
    RunAgrees(cfg, evs, ev.account, ev.ts);
    TickAgrees(cfg, Run(cfg, evs), ev.account, h, ev.ts);
    AgreesTrimmed(Window(Ticked(cfg, Run(cfg, evs), ev.ts).failures, ev.account), h, cfg.window, ev.ts);
  }

  lemma RecentIsTrim(cfg: Config, failures: Failures, ev: Event)
    ensures Recent(cfg, failures, ev)
         == Trim(Window(failures, ev.account), ev.ts - cfg.window)
  {
  }

  lemma ChronologicalInit(evs: seq<Event>, ev: Event)
    requires Chronological(evs + [ev])
    ensures Chronological(evs) && (evs != [] ==> evs[|evs| - 1].ts <= ev.ts)
  {
    var all := evs + [ev];
    assert all[|evs|] == ev && forall i :: 0 <= i < |evs| ==> all[i] == evs[i];
  }

  /** With times in order an event alerts exactly when the definition on the full history says so:
      enough failures since the account was last cleared that lie in the window. */
  lemma AlertsAsDefined(cfg: Config, evs: seq<Event>, ev: Event)
    requires cfg.minFailures >= 1 && Chronological(evs + [ev])
    ensures Alerting(cfg, Run(cfg, evs), ev)
       <==> ShouldAlert(cfg, evs, ev)
  {
    hide Recent, Retained, Count, Run, History, Ticked, Chronological, SomeIpReaches;
    RecentIsHistory(cfg, evs, ev);
  }

  // ---- the counts, and what is forgotten ----

  function Failed(s: seq<Stamped<string>>, ip: string): set<nat> { set i | 0 <= i < |s| && s[i].tag == ip }

  lemma FailedNext(s: seq<Stamped<string>>, ip: string)
    requires s != []
    ensures var n := |s| - 1;
            Failed(s, ip) == if s[n].tag == ip then Failed(s[..n], ip) + {n} else Failed(s[..n], ip)
  {
  }

  /** The count of an IP is the number of the places at which it stands. */
  lemma {:induction false} CountExact(s: seq<Stamped<string>>, ip: string)
    ensures Count(s, ip) == |Failed(s, ip)|
  {
    if s != [] {
      CountExact(s[..|s| - 1], ip);
      FailedNext(s, ip);
    }
  }

  lemma NextCalls(cfg: Config, s: State, ev: Event)
    ensures Next(cfg, s, ev).calls == if s.calls + 1 >= 5_000 then 0 else s.calls + 1
  {
    hide Recent, Pruned, Insert, SuccessAlerts;
  }

  lemma {:induction false} CallsCounted(cfg: Config, evs: seq<Event>)
    ensures Run(cfg, evs).calls == |evs| % 5_000
  {
    if evs != [] {
      hide Next;
      var n := |evs| - 1;
      CallsCounted(cfg, evs[..n]);
      NextCalls(cfg, Run(cfg, evs[..n]), evs[n]);
      NextInRound(n);
    }
  }

  ghost predicate AllSince(failures: Failures, cutoff: Nanos) {
    forall a <- failures :: Since(failures[a], cutoff)
  }

  ghost predicate Since(s: seq<Stamped<string>>, cutoff: Nanos) { forall i :: 0 <= i < |s| ==> s[i].ts >= cutoff }

  lemma TrimSince(s: seq<Stamped<string>>, cutoff: Nanos)
    requires Sorted(s)
    ensures Since(Trim(s, cutoff), cutoff)
  {
    hide Trim;
    var k := TrimSuffix(s, cutoff);
  }

  lemma InsertSince(s: seq<Stamped<string>>, rec: Stamped<string>, cutoff: Nanos)
    requires Since(s, cutoff) && rec.ts >= cutoff
    ensures Since(Insert(s, rec), cutoff)
  {
    hide Insert;
    var ins := Insert(s, rec);
    InsertContents(s, rec);
    forall i | 0 <= i < |ins| ensures ins[i] in s || ins[i] == rec { assert ins[i] in multiset(ins); }
  }

  lemma TickForgets(cfg: Config, s: State, now: Nanos)
    requires WellKept(s.failures) && s.calls + 1 >= PRUNE_EVERY
    ensures AllSince(Ticked(cfg, s, now).failures, now - cfg.window)
  {
    hide Trim, Sorted, Since;
    forall a | a in s.failures ensures Since(Trim(s.failures[a], now - cfg.window), now - cfg.window) {
      TrimSince(s.failures[a], now - cfg.window);
    }
  }

  lemma NextForgets(cfg: Config, s: State, ev: Event)
    requires cfg.window >= 0 && WellKept(Ticked(cfg, s, ev.ts).failures)
    requires AllSince(Ticked(cfg, s, ev.ts).failures, ev.ts - cfg.window)
    ensures AllSince(Next(cfg, s, ev).failures, ev.ts - cfg.window)
  {
    hide Trim, Insert, Count, Sorted, Ticked, Since, SuccessAlerts;
    var f, cutoff := Ticked(cfg, s, ev.ts).failures, ev.ts - cfg.window;
    NoneIsKept();
    TrimSince(Window(f, ev.account), cutoff);
    InsertSince(Recent(cfg, f, ev), Stamped(ev.ts, ev.ip), cutoff);
  }

  /** Behind every 5000th event no failure is left that was outside the window by then. */
  lemma PruneForgets(cfg: Config, evs: seq<Event>, account: string, i: nat)
    requires evs != [] && |evs| % 5_000 == 0 && cfg.window >= 0
    requires account in Run(cfg, evs).failures && i < |Run(cfg, evs).failures[account]|
    ensures Run(cfg, evs).failures[account][i].ts >= evs[|evs| - 1].ts - cfg.window
  {
    hide WellKept, Next, Ticked;
    var init, ev := evs[..|evs| - 1], evs[|evs| - 1];
    CallsCounted(cfg, init);
    RunsWellKept(cfg, init);
    NextWellKept(cfg, Run(cfg, init), ev);
    TickForgets(cfg, Run(cfg, init), ev.ts);
    NextForgets(cfg, Run(cfg, init), ev);
  }
}
