/** The throttled notifier: a cooldown per origin and a limit per fixed window, both consumed
    only by a send that succeeded. */
module Throttle {
  import opened Events
  import opened TargetText
  import opened Time

  const THROTTLE_PRUNE_EVERY: nat := 500
  const THROTTLE_MAX_KEYS: nat := 5_000

  datatype Config = Config(keyCooldown: Nanos, maxPerWindow: int, window: Nanos)

  /** One call: its key, the clock at the checks, after the send and at the pruning, and whether
      the wrapped notifier succeeded. */
  datatype Call = Call(key: string, now: Nanos, sentAt: Nanos, prunedAt: Nanos, ok: bool)

  datatype State = State(keys: map<string, Nanos>, windowStart: Nanos, windowCount: nat, pruneCount: nat)

  datatype Outcome = CoolingDown | OverLimit | SendFailed | Delivered

  // ---- specification ----

  function ActionText(a: Action): string {
    match a
    case BlockIp => "block_ip"
    case SuspendAccount => "suspend_account"
    case NotifyOnly => "notify_only"
  }

  function ThrottleKey(a: Alert): string {
    if a.ip == "" && a.account == "" then ActionText(a.action) + "|" + a.moduleName
    else ActionText(a.action) + "|" + a.ip + "|" + a.account
  }

  predicate Cooling(cfg: Config, s: State, key: string, now: Nanos) {
    cfg.keyCooldown > 0 && key in s.keys && now - s.keys[key] < cfg.keyCooldown
  }

  /** A window that is over is replaced by one that starts now. */
  function Rolled(cfg: Config, s: State, now: Nanos): State {
    if cfg.maxPerWindow > 0 && now - s.windowStart >= cfg.window then s.(windowStart := now, windowCount := 0) else s
  }

  predicate Full(cfg: Config, s: State, now: Nanos) {
    cfg.maxPerWindow > 0 && Rolled(cfg, s, now).windowCount >= cfg.maxPerWindow
  }

  function Decide(cfg: Config, s: State, c: Call): Outcome {
    if Cooling(cfg, s, c.key, c.now) then CoolingDown
    else if Full(cfg, s, c.now) then OverLimit
    else if !c.ok then SendFailed
    else Delivered
  }

  function Consumed(cfg: Config, s: State, key: string, sentAt: Nanos): State {
    s.(windowCount := if cfg.maxPerWindow > 0 then s.windowCount + 1 else s.windowCount,
       keys := if cfg.keyCooldown > 0 then s.keys[key := sentAt] else s.keys,
       pruneCount := s.pruneCount + 1)
  }

  function Unexpired(keys: map<string, Nanos>, cutoff: Nanos): map<string, Nanos> {
    map k | k in keys && keys[k] >= cutoff :: keys[k]
  }

  function Pruned(cfg: Config, s: State, now: Nanos): State {
    if s.pruneCount >= THROTTLE_PRUNE_EVERY || |s.keys| >= THROTTLE_MAX_KEYS
    then s.(pruneCount := 0, keys := Unexpired(s.keys, now - cfg.keyCooldown))
    else s
  }

  /** One call; pruning tells whether expired keys are ever pruned, as the notifier does. */
  function Next(cfg: Config, pruning: bool, s: State, c: Call): State {
    match Decide(cfg, s, c)
    case CoolingDown => s
    case OverLimit => Rolled(cfg, s, c.now)
    case SendFailed => Rolled(cfg, s, c.now)
    case Delivered =>
      var sent := Consumed(cfg, Rolled(cfg, s, c.now), c.key, c.sentAt);
      if pruning then Pruned(cfg, sent, c.prunedAt) else sent
  }

  // ---- the notifier ----

  class ThrottledNotifier {
    const cfg: Config
    var keys: map<string, Nanos>
    var windowStart: Nanos
    var windowCount: nat
    var pruneCount: nat

    ghost function View(): State reads this { State(keys, windowStart, windowCount, pruneCount) }

    constructor (cfg: Config, now: Nanos)
      ensures this.cfg == if cfg.window == 0 then cfg.(window := MINUTE) else cfg
      ensures View() == State(map[], now, 0, 0)
    {
      this.cfg := if cfg.window == 0 then cfg.(window := MINUTE) else cfg;
      keys, windowStart, windowCount, pruneCount := map[], now, 0, 0;
    }

    /** Notify; the clock readings and the outcome of the wrapped notifier are the caller's. */
    method Notify(alert: Alert, now: Nanos, sentAt: Nanos, prunedAt: Nanos, ok: bool) returns (outcome: Outcome)
      modifies this
      ensures var c := Call(ThrottleKey(alert), now, sentAt, prunedAt, ok);
              outcome == Decide(cfg, old(View()), c) && View() == Next(cfg, true, old(View()), c)
    {
      hide ThrottleKey, Pruned, Consumed, Rolled;
      var key := ThrottleKey(alert);
      var cooling, full := Admit(key, now);
      if cooling { return CoolingDown; }
      if full { return OverLimit; }
      if !ok { return SendFailed; }
      outcome := Delivered;
      Record(key, sentAt, prunedAt);
    }

    /** The first critical section: both checks, and the roll of the window. */
    method Admit(key: string, now: Nanos) returns (cooling: bool, full: bool)
      modifies this`windowStart, this`windowCount
      ensures cooling == Cooling(cfg, old(View()), key, now)
      ensures !cooling ==> full == Full(cfg, old(View()), now)
      ensures View() == if cooling then old(View()) else Rolled(cfg, old(View()), now)
    {
      cooling, full := false, false;
      if cfg.keyCooldown > 0 && key in keys {
        var remaining := cfg.keyCooldown - (now - keys[key]);
        if remaining > 0 { return true, false; }
      }
      if cfg.maxPerWindow > 0 {
        if now - windowStart >= cfg.window {
          windowStart, windowCount := now, 0;
        }
        full := windowCount >= cfg.maxPerWindow;
      }
    }

    /** The second one, after the send: the limits are consumed and expired keys pruned. */
    method Record(key: string, sentAt: Nanos, prunedAt: Nanos)
      modifies this`windowCount, this`keys, this`pruneCount
      ensures View() == Pruned(cfg, Consumed(cfg, old(View()), key, sentAt), prunedAt)
    {
      hide Unexpired;
      if cfg.maxPerWindow > 0 { windowCount := windowCount + 1; }
      if cfg.keyCooldown > 0 { keys := keys[key := sentAt]; }
      pruneCount := pruneCount + 1;
      if pruneCount >= THROTTLE_PRUNE_EVERY || |keys| >= THROTTLE_MAX_KEYS {
        pruneCount := 0;
        PruneKeys(prunedAt - cfg.keyCooldown);
      }
    }

    method PruneKeys(cutoff: Nanos)
      modifies this`keys
      ensures keys == Unexpired(old(keys), cutoff)
    {
      var rest := keys.Keys;
      while rest != {}
        invariant rest <= old(keys).Keys
        invariant forall k :: k in keys <==> k in old(keys) && (k in rest || old(keys)[k] >= cutoff)
        invariant forall k <- keys :: keys[k] == old(keys)[k]
      {
        var k :| k in rest;
        if keys[k] < cutoff { keys := keys - {k}; }
        rest := rest - {k};
      }
    }
  }

  // ---- the key ----

  lemma Cut(a: string, b: string, c: string, d: string)
    requires '|' !in a && '|' !in c && a + "|" + b == c + "|" + d
    ensures a == c && b == d
  {
    var s, t := a + "|" + b, c + "|" + d;
    assert s[..|a|] == a && t[..|c|] == c && s[|a|] == '|' && t[|c|] == '|';
    assert s[|a| + 1..] == b && t[|c| + 1..] == d;
  }

  predicate NoOrigin(a: Alert) { a.ip == "" && a.account == "" }

  /** What stands behind the action in a key. */
  function Origin(a: Alert): string { if NoOrigin(a) then a.moduleName else a.ip + "|" + a.account }

  /** The first IP and account run together like the second: the second IP is the first, a
      separator and the beginning of the first account. */
  ghost predicate RunsInto(ip1: string, account1: string, ip2: string, account2: string) {
    exists mid: string :: ip2 == ip1 + "|" + mid && account1 == mid + "|" + account2
  }

  lemma JoinedExactly(ip1: string, account1: string, ip2: string, account2: string)
    ensures ip1 + "|" + account1 == ip2 + "|" + account2 <==>
              || (ip1 == ip2 && account1 == account2)
              || RunsInto(ip1, account1, ip2, account2) || RunsInto(ip2, account2, ip1, account1)
  {
    if ip1 + "|" + account1 == ip2 + "|" + account2 {
      if |ip1| == |ip2| {
        JoinedCut(ip1, account1, ip2, account2);
      } else if |ip1| < |ip2| {
        var mid := JoinedInto(ip1, account1, ip2, account2);
      } else {
        var mid := JoinedInto(ip2, account2, ip1, account1);
      }
    }
    forall mid: string ensures ip1 + "|" + (mid + "|" + account2) == (ip1 + "|" + mid) + "|" + account2 {}
    forall mid: string ensures ip2 + "|" + (mid + "|" + account1) == (ip2 + "|" + mid) + "|" + account1 {}
  }

  lemma JoinedCut(ip1: string, account1: string, ip2: string, account2: string)
    requires ip1 + "|" + account1 == ip2 + "|" + account2 && |ip1| == |ip2|
    ensures ip1 == ip2 && account1 == account2
  {
    var s, n := ip1 + "|" + account1, |ip1|;
    assert s[..n] == ip1 && (ip2 + "|" + account2)[..n] == ip2;
    assert s[n + 1..] == account1 && (ip2 + "|" + account2)[n + 1..] == account2;
  }

  lemma JoinedInto(ip1: string, account1: string, ip2: string, account2: string) returns (mid: string)
    requires ip1 + "|" + account1 == ip2 + "|" + account2 && |ip1| < |ip2|
    ensures ip2 == ip1 + "|" + mid && account1 == mid + "|" + account2
  {
    var s, n, m := ip1 + "|" + account1, |ip1|, |ip2|;
    mid := ip2[n + 1..];
    assert s[..m] == ip2 && s[..n] == ip1 && s[n] == '|';
    assert ip2[..n] == ip1 && ip2[n] == '|';
    assert ip2 == ip2[..n] + [ip2[n]] + ip2[n + 1..];
    assert s[n + 1..] == account1;
    assert (ip2 + "|" + account2)[n + 1..] == mid + "|" + account2;
  }

  /** Two alerts share a cooldown exactly when they ask for the same action and either have neither
      IP nor account and come from the same module, or name the same IP and account; or when a
      separator inside an IP makes two different pairs run together. */
  lemma KeyTellsApart(a: Alert, b: Alert)
    requires '|' !in a.moduleName && '|' !in b.moduleName
    ensures ThrottleKey(a) == ThrottleKey(b) <==>
              && a.action == b.action
              && (if NoOrigin(a) || NoOrigin(b) then NoOrigin(a) && NoOrigin(b) && a.moduleName == b.moduleName
                  else || (a.ip == b.ip && a.account == b.account)
                       || RunsInto(a.ip, a.account, b.ip, b.account) || RunsInto(b.ip, b.account, a.ip, a.account))
  {
    hide ActionText, RunsInto;
    var x, y := ActionText(a.action), ActionText(b.action);
    ActionsDiffer(a.action, b.action);
    assert ThrottleKey(a) == x + "|" + Origin(a) && ThrottleKey(b) == y + "|" + Origin(b);
    if ThrottleKey(a) == ThrottleKey(b) { Cut(x, Origin(a), y, Origin(b)); }
    assert !NoOrigin(a) ==> Origin(a)[|a.ip|] == '|';
    assert !NoOrigin(b) ==> Origin(b)[|b.ip|] == '|';
    JoinedExactly(a.ip, a.account, b.ip, b.account);
  }

  lemma ActionsDiffer(a: Action, b: Action)
    ensures '|' !in ActionText(a) && '|' !in ActionText(b) && (ActionText(a) == ActionText(b) <==> a == b)
  {
    var x, y := ActionText(a), ActionText(b);
    assert a != b ==> x[0] != y[0];
  }

  // ---- runs of sequential calls ----

  function Run(cfg: Config, pruning: bool, start: Nanos, calls: seq<Call>): State {
    if calls == [] then State(map[], start, 0, 0)
    else Next(cfg, pruning, Run(cfg, pruning, start, calls[..|calls| - 1]), calls[|calls| - 1])
  }

  /** The calls whose alert was delivered. */
  function Deliveries(cfg: Config, pruning: bool, start: Nanos, calls: seq<Call>): seq<Call> {
    if calls == [] then []
    else
      var init, c := calls[..|calls| - 1], calls[|calls| - 1];
      Deliveries(cfg, pruning, start, init)
      + (if Decide(cfg, Run(cfg, pruning, start, init), c) == Delivered then [c] else [])
  }

  ghost predicate Timely(c: Call) { c.now <= c.sentAt <= c.prunedAt }

  /** The clock never steps back, and a call starts when the one before it is over. */
  ghost predicate Chronological(calls: seq<Call>) {
    && (forall c <- calls :: Timely(c))
    && forall i, j :: 0 <= i < j < |calls| ==> calls[i].prunedAt <= calls[j].now
  }

  ghost predicate Over(calls: seq<Call>, now: Nanos) { forall c <- calls :: Timely(c) && c.prunedAt <= now }

  lemma ChronologicalInit(calls: seq<Call>)
    requires Chronological(calls) && calls != []
    ensures var init, c := calls[..|calls| - 1], calls[|calls| - 1];
            Chronological(init) && Over(init, c.now) && Timely(c)
  {
    var init := calls[..|calls| - 1];
    forall c | c in init ensures Timely(c) && c.prunedAt <= calls[|calls| - 1].now {
      var i :| 0 <= i < |init| && init[i] == c;
      assert calls[i] == c;
    }
  }

  lemma {:induction false} DeliveriesAreCalls(cfg: Config, pruning: bool, start: Nanos, calls: seq<Call>)
    ensures forall d <- Deliveries(cfg, pruning, start, calls) :: d in calls
  {
    if calls != [] { DeliveriesAreCalls(cfg, pruning, start, calls[..|calls| - 1]); }
  }

  // ---- the cooldown ----

  /** Some alert of the key was delivered less than a cooldown ago. */
  ghost predicate Lately(cfg: Config, sent: seq<Call>, key: string, now: Nanos) {
    exists d <- sent :: d.key == key && now - d.sentAt < cfg.keyCooldown
  }

  /** The kept keys tell of every delivery that still matters, and of no other. */
  ghost predicate KeysTell(cfg: Config, keys: map<string, Nanos>, sent: seq<Call>, now: Nanos) {
    && (forall k <- keys :: KeyFrom(keys, k, sent))
    && forall d <- sent :: (d.key in keys && keys[d.key] >= d.sentAt) || now - d.sentAt > cfg.keyCooldown
  }

  ghost predicate KeyFrom(keys: map<string, Nanos>, k: string, sent: seq<Call>)
    requires k in keys
  {
    exists d <- sent :: d.key == k && d.sentAt == keys[k]
  }

  lemma KeysTellCooling(cfg: Config, s: State, sent: seq<Call>, key: string, now: Nanos)
    requires cfg.keyCooldown > 0 && KeysTell(cfg, s.keys, sent, now)
    ensures Cooling(cfg, s, key, now)
       <==> Lately(cfg, sent, key, now)
  {
    if Cooling(cfg, s, key, now) {
      assert KeyFrom(s.keys, key, sent);
    }
  }

  lemma KeysTellNext(cfg: Config, pruning: bool, s: State, sent: seq<Call>, c: Call)
    requires cfg.keyCooldown > 0 && KeysTell(cfg, s.keys, sent, c.now) && Over(sent, c.now) && Timely(c)
    ensures var more := if Decide(cfg, s, c) == Delivered then [c] else [];
            KeysTell(cfg, Next(cfg, pruning, s, c).keys, sent + more, c.prunedAt)
  {
    var keys' := Next(cfg, pruning, s, c).keys;
    if Decide(cfg, s, c) == Delivered {
      var stamped := s.keys[c.key := c.sentAt];
      forall k | k in stamped ensures KeyFrom(stamped, k, sent + [c]) {
        if k == c.key { assert c in sent + [c]; } else { assert KeyFrom(s.keys, k, sent); }
      }
      forall k | k in keys' ensures KeyFrom(keys', k, sent + [c]) { assert KeyFrom(stamped, k, sent + [c]); }
      assert forall d <- sent + [c] :: d == c || d in sent;
    } else {
      assert sent + [] == sent;
    }
  }

  lemma {:induction false} RunKeysTell(cfg: Config, pruning: bool, start: Nanos, calls: seq<Call>, now: Nanos)
    requires cfg.keyCooldown > 0 && Chronological(calls) && Over(calls, now)
    ensures KeysTell(cfg, Run(cfg, pruning, start, calls).keys, Deliveries(cfg, pruning, start, calls), now)
  {
    if calls != [] {
      hide KeysTell, Next, Decide;
      var init, c := calls[..|calls| - 1], calls[|calls| - 1];
      ChronologicalInit(calls);
      RunKeysTell(cfg, pruning, start, init, c.now);
      DeliveriesAreCalls(cfg, pruning, start, init);
      KeysTellNext(cfg, pruning, Run(cfg, pruning, start, init), Deliveries(cfg, pruning, start, init), c);
      KeysTellLater(cfg, Run(cfg, pruning, start, calls).keys, Deliveries(cfg, pruning, start, calls), c.prunedAt, now);
    }
  }

  lemma KeysTellLater(cfg: Config, keys: map<string, Nanos>, sent: seq<Call>, now: Nanos, later: Nanos)
    requires KeysTell(cfg, keys, sent, now) && now <= later
    ensures KeysTell(cfg, keys, sent, later)
  {
  }

  /** The cooldown suppresses a call exactly when an alert of its key was delivered less than a
      cooldown ago, whatever was pruned. */
  lemma {:induction false} CoolingExactly(cfg: Config, pruning: bool, start: Nanos, calls: seq<Call>, key: string,
                                          now: Nanos)
    requires Chronological(calls) && Over(calls, now)
    ensures Cooling(cfg, Run(cfg, pruning, start, calls), key, now)
       <==> Lately(cfg, Deliveries(cfg, pruning, start, calls), key, now)
  {
    if cfg.keyCooldown > 0 {
      RunKeysTell(cfg, pruning, start, calls, now);
      KeysTellCooling(cfg, Run(cfg, pruning, start, calls), Deliveries(cfg, pruning, start, calls), key, now);
    } else {
      DeliveriesAreCalls(cfg, pruning, start, calls);
    }
  }

  /** Deliveries with one key are at least a cooldown apart. */
  lemma {:induction false} DeliveriesSpaced(cfg: Config, start: Nanos, calls: seq<Call>)
    requires Chronological(calls)
    ensures var sent := Deliveries(cfg, true, start, calls);
            forall i, j :: 0 <= i < j < |sent| && sent[i].key == sent[j].key ==>
              sent[j].now - sent[i].sentAt >= cfg.keyCooldown
  {
    if calls != [] {
      hide Run;
      var init, c := calls[..|calls| - 1], calls[|calls| - 1];
      ChronologicalInit(calls);
      DeliveriesSpaced(cfg, start, init);
      CoolingExactly(cfg, true, start, init, c.key, c.now);
      var before := Deliveries(cfg, true, start, init);
      if Decide(cfg, Run(cfg, true, start, init), c) == Delivered {
        DeliveriesAreCalls(cfg, true, start, init);
        assert forall d <- before :: d.key == c.key ==> c.now - d.sentAt >= cfg.keyCooldown;
      }
    }
  }

  // ---- pruning never changes a decision ----

  lemma {:induction false} PruningInvisible(cfg: Config, start: Nanos, calls: seq<Call>)
    requires Chronological(calls)
    ensures Deliveries(cfg, true, start, calls)
         == Deliveries(cfg, false, start, calls)
    ensures SameWindow(Run(cfg, true, start, calls), Run(cfg, false, start, calls))
  {
    if calls != [] {
      hide Decide, Next, SameWindow;
      var init, c := calls[..|calls| - 1], calls[|calls| - 1];
      ChronologicalInit(calls);
      PruningInvisible(cfg, start, init);
      SameDecision(cfg, start, init, c);
      SameWindowNext(cfg, Run(cfg, true, start, init), Run(cfg, false, start, init), c);
    } else {
      hide Next;
    }
  }

  predicate SameWindow(a: State, b: State) { a.windowStart == b.windowStart && a.windowCount == b.windowCount }

  lemma SameWindowNext(cfg: Config, a: State, b: State, c: Call)
    requires SameWindow(a, b) && Decide(cfg, a, c) == Decide(cfg, b, c)
    ensures SameWindow(Next(cfg, true, a, c), Next(cfg, false, b, c))
  {
  }

  lemma SameDecision(cfg: Config, start: Nanos, calls: seq<Call>, c: Call)
    requires Chronological(calls) && Over(calls, c.now)
    requires Deliveries(cfg, true, start, calls) == Deliveries(cfg, false, start, calls)
    requires SameWindow(Run(cfg, true, start, calls), Run(cfg, false, start, calls))
    ensures Decide(cfg, Run(cfg, true, start, calls), c)
         == Decide(cfg, Run(cfg, false, start, calls), c)
  {
    hide Run, Deliveries, Cooling;
    CoolingExactly(cfg, true, start, calls, c.key, c.now);
    CoolingExactly(cfg, false, start, calls, c.key, c.now);
  }

  /** Every call is decided as if nothing was ever pruned. */
  lemma DecidedAsUnpruned(cfg: Config, start: Nanos, calls: seq<Call>, c: Call)
    requires Chronological(calls) && Over(calls, c.now)
    ensures Decide(cfg, Run(cfg, true, start, calls), c)
         == Decide(cfg, Run(cfg, false, start, calls), c)
  {
    PruningInvisible(cfg, start, calls);
    SameDecision(cfg, start, calls, c);
  }

  // ---- the limit ----

  /** The deliveries whose send ended in the interval [x, x + length). */
  function SentIn(sent: seq<Call>, x: Nanos, length: Nanos): nat {
    if sent == [] then 0
    else SentIn(sent[..|sent| - 1], x, length) + (if x <= sent[|sent| - 1].sentAt < x + length then 1 else 0)
  }

  lemma {:induction false} NoneSentIn(sent: seq<Call>, x: Nanos, length: Nanos)
    requires forall d <- sent :: d.sentAt < x || d.sentAt >= x + length
    ensures SentIn(sent, x, length)
         == 0
  {
    if sent != [] {
      assert sent[|sent| - 1] in sent;
      NoneSentIn(sent[..|sent| - 1], x, length);
    }
  }

  lemma SentInNext(sent: seq<Call>, c: Call, x: Nanos, length: Nanos)
    ensures SentIn(sent + [c], x, length)
         == SentIn(sent, x, length) + (if x <= c.sentAt < x + length then 1 else 0)
  {
    assert (sent + [c])[..|sent|] == sent;
  }

  /** What the current window says of the deliveries n that fall in the interval. */
  predicate Bounded(cfg: Config, s: State, n: nat, x: Nanos) {
    && s.windowCount <= cfg.maxPerWindow
    && n <= 2 * cfg.maxPerWindow
    && (s.windowStart < x ==> n <= s.windowCount)
    && (s.windowStart < x + cfg.window ==> n <= cfg.maxPerWindow + s.windowCount)
  }

  lemma {:induction false} LimitHolds(cfg: Config, start: Nanos, calls: seq<Call>, x: Nanos)
    requires cfg.maxPerWindow > 0 && Chronological(calls) && forall c <- calls :: start <= c.now
    ensures Run(cfg, true, start, calls).windowStart <= if calls
         == [] then start else calls[|calls| - 1].now
    ensures Bounded(cfg, Run(cfg, true, start, calls), SentIn(Deliveries(cfg, true, start, calls), x, cfg.window), x)
  {
    hide *;
    if calls == [] {
      NothingSent(cfg, start, x);
    } else {
      var init, c := calls[..|calls| - 1], calls[|calls| - 1];
      ChronologicalInit(calls);
      assert forall d <- init :: d in calls;
      LimitHolds(cfg, start, init, x);
      RunExtended(cfg, start, calls, x);
      assert c in calls && (init != [] ==> init[|init| - 1] in init);
      WindowStartedBefore(cfg, start, calls);
      BoundedNext(cfg, Run(cfg, true, start, init), SentIn(Deliveries(cfg, true, start, init), x, cfg.window), c, x);
    }
  }

  lemma NothingSent(cfg: Config, start: Nanos, x: Nanos)
    requires cfg.maxPerWindow > 0
    ensures Run(cfg, true, start, []).windowStart
         == start
    ensures Bounded(cfg, Run(cfg, true, start, []), SentIn(Deliveries(cfg, true, start, []), x, cfg.window), x)
  {
  }

  lemma WindowStartedBefore(cfg: Config, start: Nanos, calls: seq<Call>)
    requires calls != [] && Chronological(calls) && forall c <- calls :: start <= c.now
    requires var init := calls[..|calls| - 1];
             Run(cfg, true, start, init).windowStart <= if init == [] then start else init[|init| - 1].now
    ensures Run(cfg, true, start, calls[..|calls| - 1]).windowStart <= calls[|calls| - 1].now
  {
    hide Run;
    var init, c := calls[..|calls| - 1], calls[|calls| - 1];
    assert c in calls;
    if init != [] { assert calls[|init| - 1] in calls; }
  }

  /** One more call: what it adds to the run, and to the deliveries in the interval. */
  lemma RunExtended(cfg: Config, start: Nanos, calls: seq<Call>, x: Nanos)
    requires calls != [] && Chronological(calls)
    ensures var init, c := calls[..|calls| - 1], calls[|calls| - 1];
            var s, sent := Run(cfg, true, start, init), Deliveries(cfg, true, start, init);
            var n := SentIn(sent, x, cfg.window);
            && Run(cfg, true, start, calls) == Next(cfg, true, s, c)
            && SentIn(Deliveries(cfg, true, start, calls), x, cfg.window) ==
               (if Decide(cfg, s, c) == Delivered && x <= c.sentAt < x + cfg.window then n + 1 else n)
            && (c.now < x ==> n == 0)
  {
    hide Next, Decide;
    var init, c := calls[..|calls| - 1], calls[|calls| - 1];
    var sent := Deliveries(cfg, true, start, init);
    ChronologicalInit(calls);
    DeliveriesAreCalls(cfg, true, start, init);
    if c.now < x { NoneSentIn(sent, x, cfg.window); }
    SentInNext(sent, c, x, cfg.window);
    assert sent + [] == sent;
  }

  lemma BoundedNext(cfg: Config, s: State, n: nat, c: Call, x: Nanos)
    requires cfg.maxPerWindow > 0 && Timely(c) && Bounded(cfg, s, n, x) && (c.now < x ==> n == 0)
    requires s.windowStart <= c.now
    ensures Next(cfg, true, s, c).windowStart <= c.now
    ensures var m := if Decide(cfg, s, c) == Delivered && x <= c.sentAt < x + cfg.window then n + 1 else n;
            Bounded(cfg, Next(cfg, true, s, c), m, x)
  {
  }

  /** Any interval as long as the window holds at most twice the limit of deliveries. */
  lemma AtMostTwiceTheLimit(cfg: Config, start: Nanos, calls: seq<Call>, x: Nanos)
    requires cfg.maxPerWindow > 0 && Chronological(calls) && forall c <- calls :: start <= c.now
    ensures SentIn(Deliveries(cfg, true, start, calls), x, cfg.window) <= 2 * cfg.maxPerWindow
  {
    LimitHolds(cfg, start, calls, x);
  }

  /** Keys of different lengths. */
  function Key(i: nat): string { seq(i, _ => 'k') }

  /** n calls at one moment, with keys of their own, all delivered by the channel. */
  function Burst(lo: nat, n: nat, at: Nanos): seq<Call> {
    seq(n, i requires 0 <= i < n => Call(Key(lo + i), at, at, at, true))
  }

  function TwoBursts(n: nat, window: Nanos): seq<Call> { Burst(0, n, window - 1) + Burst(n, n, window) }

  lemma RunNext(cfg: Config, start: Nanos, calls: seq<Call>, c: Call)
    ensures var s := Run(cfg, true, start, calls);
            && Run(cfg, true, start, calls + [c]) == Next(cfg, true, s, c)
            && Deliveries(cfg, true, start, calls + [c]) ==
               Deliveries(cfg, true, start, calls) + (if Decide(cfg, s, c) == Delivered then [c] else [])
  {
    assert (calls + [c])[..|calls|] == calls;
  }

  predicate InWindow(s: State, start: Nanos, count: int) { s.windowStart == start && s.windowCount == count }

  /** No key of that length or longer was used. */
  predicate KeysBelow(s: State, lo: nat) { forall k <- s.keys :: |k| < lo }

  lemma BurstStep(cfg: Config, s: State, c: Call)
    requires KeysBelow(s, |c.key|) && c.ok && !Full(cfg, s, c.now) && cfg.maxPerWindow > 0
    ensures Decide(cfg, s, c) == Delivered && KeysBelow(Next(cfg, true, s, c), |c.key| + 1)
    ensures if c.now - s.windowStart >= cfg.window then InWindow(Next(cfg, true, s, c), c.now, 1)
            else InWindow(Next(cfg, true, s, c), s.windowStart, s.windowCount + 1)
  {
  }

  /** With new keys, a burst within what the window has left is delivered as a whole, whatever the
      cooldown. */
  lemma {:induction false} BurstDelivered(cfg: Config, start: Nanos, calls: seq<Call>, lo: nat, n: nat, at: Nanos,
                                          x: Nanos, from: Nanos, count: nat)
    requires 0 < n && x <= at < x + cfg.window
    requires InWindow(Run(cfg, true, start, calls), from, count) && KeysBelow(Run(cfg, true, start, calls), lo)
    requires if at - from >= cfg.window then n <= cfg.maxPerWindow else count + n <= cfg.maxPerWindow
    ensures var r := Run(cfg, true, start, calls + Burst(lo, n, at));
            KeysBelow(r, lo + n) && if at - from >= cfg.window then InWindow(r, at, n) else InWindow(r, from, count + n)
    ensures SentIn(Deliveries(cfg, true, start, calls + Burst(lo, n, at)), x, cfg.window)
         == SentIn(Deliveries(cfg, true, start, calls), x, cfg.window) + n
  {
    hide Run, Deliveries, SentIn, Next, Decide, KeysBelow;
    var c := Call(Key(lo + n - 1), at, at, at, true);
    var before := calls + Burst(lo, n - 1, at);
    assert calls + Burst(lo, n, at) == before + [c];
    if n == 1 {
      assert before == calls;
    } else {
      BurstDelivered(cfg, start, calls, lo, n - 1, at, x, from, count);
    }
    BurstStep(cfg, Run(cfg, true, start, before), c);
    RunNext(cfg, start, before, c);
    SentInNext(Deliveries(cfg, true, start, before), c, x, cfg.window);
  }

  /** Twice is reached, under every cooldown, for every limit and every window of two nanoseconds
      or more: one window spends its limit at its end, the next at its start. */
  lemma TwiceIsReached(cfg: Config)
    requires cfg.maxPerWindow >= 1 && cfg.window >= 2
    ensures var calls := TwoBursts(cfg.maxPerWindow, cfg.window);
            && Chronological(calls) && (forall c <- calls :: 0 <= c.now)
            && SentIn(Deliveries(cfg, true, 0, calls), cfg.window - 1, cfg.window) == 2 * cfg.maxPerWindow
  {
    var n, w := cfg.maxPerWindow, cfg.window;
    hide Run, Deliveries, SentIn, Chronological, Burst, InWindow, KeysBelow;
    BurstsInOrder(n, w);
    NothingYet(cfg, w - 1);
    assert [] + Burst(0, n, w - 1) == Burst(0, n, w - 1);
    BurstDelivered(cfg, 0, [], 0, n, w - 1, w - 1, 0, 0);
    BurstDelivered(cfg, 0, Burst(0, n, w - 1), n, n, w, w - 1, 0, n);
  }

  lemma BurstsInOrder(n: nat, window: Nanos)
    requires window >= 1
    ensures Chronological(TwoBursts(n, window)) && forall c <- TwoBursts(n, window) :: 0 <= c.now
  {
    hide Key;
    var calls := TwoBursts(n, window);
    forall i | 0 <= i < |calls|
      ensures calls[i] == var at := if i < n then window - 1 else window; Call(Key(i), at, at, at, true)
    {
    }
  }

  lemma NothingYet(cfg: Config, x: Nanos)
    ensures InWindow(Run(cfg, true, 0, []), 0, 0) && KeysBelow(Run(cfg, true, 0, []), 0)
    ensures SentIn(Deliveries(cfg, true, 0, []), x, cfg.window)
         == 0
  {
  }

  // ---- a failed send ----

  /** A failed send consumes nothing: unless a new window had to be opened the state is as
      before, and a retry of the same alert, however soon, is not suppressed. */
  lemma FailedSendIsFree(cfg: Config, s: State, c: Call, retry: Call)
    requires Decide(cfg, s, c) == SendFailed && retry.key == c.key && c.now <= retry.now
    ensures Next(cfg, true, s, c).keys == s.keys && Next(cfg, true, s, c).pruneCount == s.pruneCount
    ensures !(cfg.maxPerWindow > 0 && c.now - s.windowStart >= cfg.window) ==> Next(cfg, true, s, c) == s
    ensures Decide(cfg, Next(cfg, true, s, c), retry)
         == if retry.ok then Delivered else SendFailed
  {
  }

  /** Hence over whole runs a call that failed leaves no trace: unless it had to open a new window,
      every later state and every delivery is as if it had never been made. */
  lemma {:induction false} FailedSendLeavesNoTrace(cfg: Config, start: Nanos, before: seq<Call>, c: Call,
                                                   after: seq<Call>)
    requires var s := Run(cfg, true, start, before);
             Decide(cfg, s, c) == SendFailed && !(cfg.maxPerWindow > 0 && c.now - s.windowStart >= cfg.window)
    ensures Run(cfg, true, start, before + [c] + after)
         == Run(cfg, true, start, before + after)
    ensures Deliveries(cfg, true, start, before + [c] + after)
         == Deliveries(cfg, true, start, before + after)
  {
    hide Run, Deliveries, Next, Decide;
    if after == [] {
      RunNext(cfg, start, before, c);
      FailedSendIsFree(cfg, Run(cfg, true, start, before), c, c);
      assert before + [c] + [] == before + [c] && before + [] == before;
      assert Deliveries(cfg, true, start, before) + [] == Deliveries(cfg, true, start, before);
    } else {
      var init, last := after[..|after| - 1], after[|after| - 1];
      FailedSendLeavesNoTrace(cfg, start, before, c, init);
      assert before + [c] + after == (before + [c] + init) + [last] && before + after == (before + init) + [last];
      RunNext(cfg, start, before + [c] + init, last);
      RunNext(cfg, start, before + init, last);
    }
  }

  /** A burst behind the failed call, and one call a window after it. */
  function ShiftedCalls(cfg: Config, c: Call, lo: nat, at: Nanos): seq<Call>
    requires cfg.maxPerWindow > 0
  {
    var last := c.now + cfg.window;
    Burst(lo, cfg.maxPerWindow, at) + [Call(Key(lo + cfg.maxPerWindow), last, last, last, true)]
  }

  /** The guard is exact: whenever a failed send did open a new window, and ended before that was
      over, there are later calls of which one more is delivered than without it. Its window
      starts earlier than the one the next call would have opened, and ends earlier. */
  lemma FailedSendShiftsWindows(cfg: Config, start: Nanos, before: seq<Call>, c: Call, lo: nat, at: Nanos)
    requires Chronological(before + [c])
    requires var s := Run(cfg, true, start, before);
             Decide(cfg, s, c) == SendFailed && cfg.maxPerWindow > 0 && c.now - s.windowStart >= cfg.window
    requires KeysBelow(Run(cfg, true, start, before), lo)
    requires c.prunedAt <= at && c.now < at < c.now + cfg.window
    ensures var after := ShiftedCalls(cfg, c, lo, at);
            && Chronological(before + [c] + after)
            && SentIn(Deliveries(cfg, true, start, before + [c] + after), at, cfg.window)
            == SentIn(Deliveries(cfg, true, start, before + after), at, cfg.window) + 1
  {
    hide Run, Deliveries, SentIn, Chronological, Burst;
    var s, n, w := Run(cfg, true, start, before), cfg.maxPerWindow, cfg.window;
    var burst := Burst(lo, n, at);
    var last := Call(Key(lo + n), c.now + w, c.now + w, c.now + w, true);
    var with, without := before + [c] + burst, before + burst;
    ShiftInOrder(cfg, before, c, lo, at);
    RunNext(cfg, start, before, c);
    assert Deliveries(cfg, true, start, before) + [] == Deliveries(cfg, true, start, before);
    BurstDelivered(cfg, start, before + [c], lo, n, at, at, c.now, 0);
    BurstDelivered(cfg, start, before, lo, n, at, at, s.windowStart, s.windowCount);
    assert before + [c] + (burst + [last]) == with + [last] && before + (burst + [last]) == without + [last];
    RunNext(cfg, start, with, last);
    RunNext(cfg, start, without, last);
    BurstStep(cfg, Run(cfg, true, start, with), last);
    SentInNext(Deliveries(cfg, true, start, with), last, at, w);
    assert Deliveries(cfg, true, start, without) + [] == Deliveries(cfg, true, start, without);
  }

  lemma ShiftInOrder(cfg: Config, before: seq<Call>, c: Call, lo: nat, at: Nanos)
    requires Chronological(before + [c]) && cfg.maxPerWindow > 0
    requires c.prunedAt <= at && c.now < at < c.now + cfg.window
    ensures Chronological(before + [c] + ShiftedCalls(cfg, c, lo, at))
  {
    hide Key;
    var head, after := before + [c], ShiftedCalls(cfg, c, lo, at);
    assert head[|before|] == c;
    forall i | 0 <= i < |head| ensures head[i].prunedAt <= c.prunedAt {
      assert head[i] in head && c in head && Timely(c);
    }
    forall i | 0 <= i < |after| ensures at <= after[i].now == after[i].sentAt == after[i].prunedAt {}
    assert forall i, j :: 0 <= i < j < |after| ==> after[i].now <= after[j].now;
    var all := head + after;
    assert forall i :: 0 <= i < |all| ==> all[i] == if i < |head| then head[i] else after[i - |head|];
  }

  /** The two states decide and develop alike at every time outside of the failed call's window. */
  ghost predicate AlikeOutside(cfg: Config, a: State, b: State, began: Nanos) {
    && a.keys == b.keys && a.pruneCount == b.pruneCount
    && forall now :: now == began || (now >= began && now >= began + cfg.window) ==>
         Rolled(cfg, a, now) == Rolled(cfg, b, now)
  }

  lemma AlikeNext(cfg: Config, a: State, b: State, c: Call, began: Nanos)
    requires AlikeOutside(cfg, a, b, began) && c.now >= began && (c.now == began || c.now >= began + cfg.window)
    ensures Decide(cfg, a, c) == Decide(cfg, b, c)
    ensures AlikeOutside(cfg, Next(cfg, true, a, c), Next(cfg, true, b, c), began)
  {
    assert Rolled(cfg, a, c.now) == Rolled(cfg, b, c.now);
  }

  lemma {:induction false} SkipsWindowAlike(cfg: Config, start: Nanos, before: seq<Call>, c: Call, after: seq<Call>)
    requires var s := Run(cfg, true, start, before);
             Decide(cfg, s, c) == SendFailed && cfg.maxPerWindow > 0 && c.now - s.windowStart >= cfg.window
    requires forall d <- after :: d.now >= c.now && (d.now == c.now || d.now >= c.now + cfg.window)
    ensures AlikeOutside(cfg, Run(cfg, true, start, before + [c] + after), Run(cfg, true, start, before + after), c.now)
    ensures Deliveries(cfg, true, start, before + [c] + after)
         == Deliveries(cfg, true, start, before + after)
  {
    hide *;
    if after == [] {
      FailedAlike(cfg, Run(cfg, true, start, before), c);
      RunNext(cfg, start, before, c);
      assert before + [c] + [] == before + [c] && before + [] == before;
      assert Deliveries(cfg, true, start, before) + [] == Deliveries(cfg, true, start, before);
    } else {
      var init, last := after[..|after| - 1], after[|after| - 1];
      assert last in after && forall d <- init :: d in after;
      SkipsWindowAlike(cfg, start, before, c, init);
      assert before + [c] + after == (before + [c] + init) + [last] && before + after == (before + init) + [last];
      RunNext(cfg, start, before + [c] + init, last);
      RunNext(cfg, start, before + init, last);
      AlikeNext(cfg, Run(cfg, true, start, before + [c] + init), Run(cfg, true, start, before + init), last, c.now);
    }
  }

  lemma FailedAlike(cfg: Config, s: State, c: Call)
    requires Decide(cfg, s, c) == SendFailed && cfg.maxPerWindow > 0 && c.now - s.windowStart >= cfg.window
    ensures AlikeOutside(cfg, Next(cfg, true, s, c), s, c.now)
  {
  }

  /** What follows the failed call delivers the same with and without it. */
  ghost predicate Traceless(cfg: Config, start: Nanos, before: seq<Call>, c: Call, after: seq<Call>) {
    Deliveries(cfg, true, start, before + [c] + after) == Deliveries(cfg, true, start, before + after)
  }

  /** The failed call had to open a new window, and a later call can start inside of it: behind the
      failed one, at another time, and before the window is over. */
  ghost predicate LeavesRoom(cfg: Config, start: Nanos, before: seq<Call>, c: Call) {
    && cfg.maxPerWindow > 0 && c.now - Run(cfg, true, start, before).windowStart >= cfg.window
    && c.prunedAt < c.now + cfg.window && c.now + 1 < c.now + cfg.window
  }

  lemma {:induction false} KeyBound(keys: set<string>) returns (lo: nat)
    ensures forall k <- keys :: |k| < lo
  {
    lo := 0;
    if keys != {} {
      var k :| k in keys;
      var rest := KeyBound(keys - {k});
      lo := if |k| < rest then rest else |k| + 1;
    }
  }

  lemma BehindFailed(before: seq<Call>, c: Call, after: seq<Call>)
    requires Chronological(before + [c] + after)
    ensures Chronological(before + [c]) && forall d <- after :: c.now <= c.prunedAt <= d.now
  {
    var all, head := before + [c] + after, before + [c];
    assert forall i :: 0 <= i < |head| ==> all[i] == head[i];
    assert head[|before|] == c && c in all && Timely(c);
    forall d | d in after ensures c.prunedAt <= d.now {
      var i :| 0 <= i < |after| && after[i] == d;
      assert all[|before|] == c && all[|head| + i] == d;
    }
  }

  /** A failed send leaves no trace in what any later calls deliver if and only if it did not open a
      window in which a later call can start. */
  lemma FailedSendTracelessExactly(cfg: Config, start: Nanos, before: seq<Call>, c: Call)
    requires Chronological(before + [c]) && Decide(cfg, Run(cfg, true, start, before), c) == SendFailed
    ensures (forall after :: Chronological(before + [c] + after) ==> Traceless(cfg, start, before, c, after))
       <==> !LeavesRoom(cfg, start, before, c)
  {
    var s := Run(cfg, true, start, before);
    hide Run, Deliveries, Decide, Chronological, Burst;
    if LeavesRoom(cfg, start, before, c) {
      var lo := KeyBound(s.keys.Keys);
      var at := if c.prunedAt <= c.now then c.now + 1 else c.prunedAt;
      FailedSendShiftsWindows(cfg, start, before, c, lo, at);
      assert !Traceless(cfg, start, before, c, ShiftedCalls(cfg, c, lo, at));
    } else {
      forall after | Chronological(before + [c] + after) ensures Traceless(cfg, start, before, c, after) {
        BehindFailed(before, c, after);
        if cfg.maxPerWindow > 0 && c.now - s.windowStart >= cfg.window {
          SkipsWindowAlike(cfg, start, before, c, after);
        } else {
          FailedSendLeavesNoTrace(cfg, start, before, c, after);
        }
      }
    }
  }

  // ---- what is forgotten ----

  lemma {:induction false} PruneCountBelow(cfg: Config, start: Nanos, calls: seq<Call>)
    ensures Run(cfg, true, start, calls).pruneCount < 500
  {
    if calls != [] { PruneCountBelow(cfg, start, calls[..|calls| - 1]); }
  }

  /** The keys are pruned when 500 deliveries were made since the last time, or 5000 keys are kept: none
      is left then whose cooldown was over. Otherwise the delivery is counted. */
  lemma PruneForgets(cfg: Config, start: Nanos, calls: seq<Call>, c: Call)
    requires Decide(cfg, Run(cfg, true, start, calls), c) == Delivered && cfg.keyCooldown > 0
    ensures var s, after := Run(cfg, true, start, calls), Run(cfg, true, start, calls + [c]);
            if s.pruneCount == 499 || |s.keys[c.key := c.sentAt]| >= 5_000
            then after.pruneCount == 0 && forall k <- after.keys :: after.keys[k] >= c.prunedAt - cfg.keyCooldown
            else after.pruneCount == s.pruneCount + 1 && after.keys == s.keys[c.key := c.sentAt]
  {
    hide Run, Decide;
    RunNext(cfg, start, calls, c);
    PruneCountBelow(cfg, start, calls);
  }

  // ---- every decision, from the calls alone ----

  /** The call that opened the window that is current behind these calls, if one did: the last that was
      not suppressed by its cooldown when the window before it was over. */
  ghost function Opening(cfg: Config, start: Nanos, calls: seq<Call>): (r: Option<nat>)
    ensures r.Some? ==> r.value < |calls|
    decreases |calls|, 0
  {
    if calls == [] then None
    else if Opens(cfg, start, calls[..|calls| - 1], calls[|calls| - 1]) then Some(|calls| - 1)
    else Opening(cfg, start, calls[..|calls| - 1])
  }

  ghost function OpenedAt(cfg: Config, start: Nanos, calls: seq<Call>): Nanos
    decreases |calls|, 1
  {
    match Opening(cfg, start, calls)
    case None => start
    case Some(i) => calls[i].now
  }

  ghost predicate Opens(cfg: Config, start: Nanos, calls: seq<Call>, c: Call)
    decreases |calls|, 2
  {
    && cfg.maxPerWindow > 0 && !Lately(cfg, Deliveries(cfg, true, start, calls), c.key, c.now)
    && c.now - OpenedAt(cfg, start, calls) >= cfg.window
  }

  /** The deliveries of the current window, the opening call's included. */
  ghost function SentSinceOpening(cfg: Config, start: Nanos, calls: seq<Call>): int
  {
    var i := Opening(cfg, start, calls);
    |Deliveries(cfg, true, start, calls)|
    - |Deliveries(cfg, true, start, if i.Some? then calls[..i.value] else [])|
  }

  /** One more call. */
  lemma OpeningNext(cfg: Config, start: Nanos, calls: seq<Call>)
    requires calls != []
    ensures var init, c := calls[..|calls| - 1], calls[|calls| - 1];
            var sent := if Decide(cfg, Run(cfg, true, start, init), c) == Delivered then 1 else 0;
            && OpenedAt(cfg, start, calls) == (if Opens(cfg, start, init, c) then c.now else OpenedAt(cfg, start, init))
            && SentSinceOpening(cfg, start, calls) ==
               (if Opens(cfg, start, init, c) then sent else SentSinceOpening(cfg, start, init) + sent)
  {
    hide Run, Decide, Opens;
    var init := calls[..|calls| - 1];
    var i := Opening(cfg, start, init);
    if i.Some? { assert init[..i.value] == calls[..i.value]; }
  }

  /** The state of the window is that of the calls since its opening. */
  lemma {:induction false} WindowIsOpened(cfg: Config, start: Nanos, calls: seq<Call>)
    requires Chronological(calls) && cfg.maxPerWindow > 0
    ensures InWindow(Run(cfg, true, start, calls), OpenedAt(cfg, start, calls), SentSinceOpening(cfg, start, calls))
  {
    hide *;
    if calls == [] {
      NothingOpened(cfg, start);
    } else {
      var init, c := calls[..|calls| - 1], calls[|calls| - 1];
      var s := Run(cfg, true, start, init);
      ChronologicalInit(calls);
      WindowIsOpened(cfg, start, init);
      OpensExactly(cfg, start, init, c);
      OpeningNext(cfg, start, calls);
      RunLast(cfg, start, calls);
      WindowNext(cfg, s, c, OpenedAt(cfg, start, init), SentSinceOpening(cfg, start, init));
    }
  }

  lemma NothingOpened(cfg: Config, start: Nanos)
    ensures InWindow(Run(cfg, true, start, []), OpenedAt(cfg, start, []), SentSinceOpening(cfg, start, []))
  {
  }

  lemma RunLast(cfg: Config, start: Nanos, calls: seq<Call>)
    requires calls != []
    ensures Run(cfg, true, start, calls)
         == Next(cfg, true, Run(cfg, true, start, calls[..|calls| - 1]), calls[|calls| - 1])
  {
    hide Next;
  }

  lemma OpensExactly(cfg: Config, start: Nanos, calls: seq<Call>, c: Call)
    requires Chronological(calls) && Over(calls, c.now) && cfg.maxPerWindow > 0
    ensures Opens(cfg, start, calls, c) <==>
              !Cooling(cfg, Run(cfg, true, start, calls), c.key, c.now)
              && c.now - OpenedAt(cfg, start, calls) >= cfg.window
  {
    hide Lately, Cooling, Deliveries, Run, OpenedAt, Chronological, Over;
    CoolingExactly(cfg, true, start, calls, c.key, c.now);
  }

  lemma WindowNext(cfg: Config, s: State, c: Call, began: Nanos, count: int)
    requires InWindow(s, began, count) && cfg.maxPerWindow > 0
    ensures var opens := !Cooling(cfg, s, c.key, c.now) && c.now - began >= cfg.window;
            var sent := if Decide(cfg, s, c) == Delivered then 1 else 0;
            InWindow(Next(cfg, true, s, c), if opens then c.now else began, if opens then sent else count + sent)
  {
    hide Cooling, Unexpired;
  }

  /** What becomes of every call: it is suppressed if and only if an alert of its key was delivered less
      than a cooldown ago; else held back if and only if it does not open a window and the current one
      has delivered its limit already; else it is delivered if and only if the send works. */
  lemma DecidedExactly(cfg: Config, start: Nanos, calls: seq<Call>, c: Call)
    requires Chronological(calls) && Over(calls, c.now)
    ensures Decide(cfg, Run(cfg, true, start, calls), c) ==
            if Lately(cfg, Deliveries(cfg, true, start, calls), c.key, c.now) then CoolingDown
            else if cfg.maxPerWindow > 0 && !Opens(cfg, start, calls, c)
                    && SentSinceOpening(cfg, start, calls) >= cfg.maxPerWindow then OverLimit
            else if c.ok then Delivered
            else SendFailed
  {
    hide Lately, Cooling, Deliveries, Opening, Run, Chronological, SentSinceOpening, OpenedAt;
    CoolingExactly(cfg, true, start, calls, c.key, c.now);
    if cfg.maxPerWindow > 0 { WindowIsOpened(cfg, start, calls); }
  }
}
