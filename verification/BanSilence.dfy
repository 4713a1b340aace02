/** Blocked implies silenced, and so dropped by the detection engine, over whole runs: exactly
    when no ban is taken away while another target of the same network stays blocked. Such a pair
    is two names of one address ("1.2.3.4" and "1.2.3.4/32"): two entries with one silence key. */
module BanSilence {
  import opened Ipv4
  import opened TargetText
  import opened Bans
  import opened BanEffects
  import opened BanOutcomes
  import opened BanSafety
  import opened Time
  import Whitelists

  /** The operation takes no target away whose network another blocked target keeps. */
  ghost predicate SparesNamesakes(s: Sys, op: Op) {
    match op
    case Unblock(target, _, _, _) =>
      target.Some? ==> forall u <- s.mem :: NetOf(u) == NetOf(Normalize(target.value)) ==> u == Normalize(target.value)
    case Expire(_, now, _) =>
      forall t <- s.mem, u <- s.mem :: now > s.mem[t].expiry && NetOf(t) == NetOf(u) ==> now > s.mem[u].expiry
    case _ => true
  }

  // ---- one operation ----

  /** What is unsilenced and not silenced again is not silenced. */
  lemma {:induction false} SilenceLost(s: Sys, steps: seq<Step>, n: Net)
    requires forall step <- steps :: !step.Silence?
    requires n !in s.silenced || exists step <- steps :: Unsilences(step, n)
    ensures n !in ApplyAll(s, steps).silenced
  {
    if steps != [] {
      var init, last := steps[..|steps| - 1], steps[|steps| - 1];
      assert steps == init + [last];
      assert !last.Silence?;
      if !Unsilences(last, n) { SilenceLost(s, init, n); }
    }
  }

  lemma {:induction false} CleanupUnsilences(cfg: Config, ts: seq<Target>, io: Target -> ExpireIo, t: Target)
    requires t in ts
    ensures Unsilence(t) in CleanupSteps(cfg, ts, io)
  {
    var last := |ts| - 1;
    if t != ts[last] {
      assert ts == ts[..last] + [ts[last]];
      CleanupUnsilences(cfg, ts[..last], io, t);
    }
  }

  lemma ExpireSilenceExact(cfg: Config, s: Sys, order: seq<Target>, now: Nanos, io: Target -> ExpireIo, u: Target)
    requires Enumerates(order, s.mem.Keys) && NetOf(u) in s.silenced
    ensures NetOf(u) in ApplyAll(s, ExpireSteps(cfg, s, order, now, io)).silenced
        <==> forall t <- s.mem :: NetOf(t) == NetOf(u) ==> now <= s.mem[t].expiry
  {
    hide ApplyAll, NetOf, CleanupSteps, Expired;
    var ts := Expired(s.mem, order, now);
    var steps := ExpireSteps(cfg, s, order, now, io);
    ExpiredExact(s.mem, order, now);
    CleanupTargets(cfg, ts, io);
    if t :| t in s.mem && NetOf(t) == NetOf(u) && now > s.mem[t].expiry {
      CleanupUnsilences(cfg, ts, io, t);
      assert Unsilence(t) in steps && Unsilences(Unsilence(t), NetOf(u));
      SilenceLost(s, steps, NetOf(u));
    } else {
      SilenceKept(s, steps, NetOf(u));
    }
  }

  lemma ExpireKeepsSilenceExactly(cfg: Config, s: Sys, op: Op)
    requires op.Expire? && Allowed(s, op) && BlockedAreSilenced(s)
    ensures BlockedAreSilenced(ApplyAll(s, StepsOf(cfg, s, op)))
       <==> SparesNamesakes(s, op)
  {
    hide ApplyAll, ExpireSteps, NetOf;
    var end := ApplyAll(s, StepsOf(cfg, s, op));
    ExpireMaps(cfg, s, op.order, op.now, op.expireIo);
    forall u | u in end.mem
      ensures NetOf(u) in end.silenced <==> forall t <- s.mem :: NetOf(t) == NetOf(u) ==> op.now <= s.mem[t].expiry
    {
      ExpireSilenceExact(cfg, s, op.order, op.now, op.expireIo, u);
    }
  }

  /** Unblocking keeps the rest of the blocked targets silenced exactly when no other entry is a
      second name for the same network. */
  lemma UnblockSilenceExact(s: Sys, target: Target, deleteOk: bool, unblock: CmdResult)
    requires BlockedAreSilenced(s)
    ensures var t := Normalize(target);
            BlockedAreSilenced(ApplyAll(s, UnblockSteps(Some(target), deleteOk, unblock)))
            <==> forall u <- s.mem :: NetOf(u) == NetOf(t) ==> u == t
  {
    var t := Normalize(target);
    UnblockEffect(s, t, deleteOk, unblock);
    var end := ApplyAll(s, UnblockSteps(Some(target), deleteOk, unblock));
    if u :| u in s.mem && NetOf(u) == NetOf(t) && u != t {
      assert u in end.mem && NetOf(u) !in end.silenced;
    }
  }

  /** The guard fails for every address that may be blocked: after blocking it under both its names
      and unblocking one, the other is live, and its events are no longer silenced. */
  lemma TwoNamesLoseSilence(cfg: Config, a: Addr, secs: int, clk: Clock, io: BlockIo, gone: CmdResult)
    requires !IsPrivateIp(a) && io.block.ok
    ensures var host, cidr := Host(a), Cidr(a, 32);
            var s0 := Sys(map[], map[], map[], {}, map[]);
            var s1 := ApplyAll(s0, BlockSteps(cfg, s0, Request(Some(host), "manual", secs), clk, io));
            var s2 := ApplyAll(s1, BlockSteps(cfg, s1, Request(Some(cidr), "manual", secs), clk, io));
            var s3 := ApplyAll(s2, UnblockSteps(Some(host), true, gone));
            && FwKey(host) == FwKey(cidr) && s2.mem.Keys == {host, cidr} && NetOf(cidr) in s2.silenced
            && cidr in s3.mem && s3.mem[cidr].expiry == BanExpiry(secs, clk.expiry) && NetOf(cidr) !in s3.silenced
  {
    hide ApplyAll, FreshSteps, IsPrivateIp;
    var host, cidr := Host(a), Cidr(a, 32);
    var s0 := Sys(map[], map[], map[], {}, map[]);
    var req1, req2 := Request(Some(host), "manual", secs), Request(Some(cidr), "manual", secs);
    var s1 := ApplyAll(s0, BlockSteps(cfg, s0, req1, clk, io));
    MaskOfAll(a);
    FreshEffect(cfg, s0, host, req1, clk, io);
    assert Decide(cfg, s1, req2, clk) == Fresh;
    FreshEffect(cfg, s1, cidr, req2, clk, io);
    UnblockEffect(ApplyAll(s1, BlockSteps(cfg, s1, req2, clk, io)), host, true, gone);
  }

  lemma MaskOfAll(a: Addr)
    ensures MaskAddr(a, 32) == a
  {
  }

  lemma BlockKeepsSilence(cfg: Config, s: Sys, req: Request, clk: Clock, io: BlockIo)
    requires BlockedAreSilenced(s)
    ensures BlockedAreSilenced(ApplyAll(s, BlockSteps(cfg, s, req, clk, io)))
  {
    hide ApplyAll, FreshSteps, ExtendSteps, NetOf, Normalize, BanExpiry, RuleUntil, ExtendRuleSteps, IsPrivateIp;
    match Decide(cfg, s, req, clk)
    case Fresh => FreshEffect(cfg, s, Normalize(req.target.value), req, clk, io);
    case Extend(prev) => ExtendEffect(cfg, s, Normalize(req.target.value), req, clk, io, prev);
    case _ => NoActionChangesNothing(cfg, s, req, clk, io);
  }

  /** Every operation, whatever its calls return. */
  lemma OperationSilenceExact(cfg: Config, s: Sys, op: Op)
    requires Allowed(s, op) && BlockedAreSilenced(s)
    ensures BlockedAreSilenced(ApplyAll(s, StepsOf(cfg, s, op)))
       <==> SparesNamesakes(s, op)
  {
    match op
    case Block(req, clk, io) => BlockKeepsSilence(cfg, s, req, clk, io);
    case Unblock(target, _, deleteOk, unblock) =>
      if target.Some? { UnblockSilenceExact(s, target.value, deleteOk, unblock); }
    case Expire(_, _, _) => ExpireKeepsSilenceExactly(cfg, s, op);
    case Reconcile(order, _, io) => ReconcileEffect(cfg, s, order, io);
    case Prune(now, ok) => ApplyAllOne(s, PruneBans(now, ok));
    case Import(present, entry, _) => ImportEffect(s, present, entry);
    case Restart(_, _, _, _, _) => RestartEstablishesInv(cfg, s, map[], op);
  }

  // ---- runs ----

  ghost predicate EventSpares(s: Sys, ev: Event) { ev.Serve? ==> SparesNamesakes(s, ev.op) }

  lemma EventSilenceExact(cfg: Config, w: World, ev: Event)
    requires Possible(cfg, w, ev) && BlockedAreSilenced(w.s)
    ensures BlockedAreSilenced(Next(cfg, w, ev).s)
       <==> EventSpares(w.s, ev)
  {
    hide ApplyAll;
    match ev
    case Serve(op) => OperationSilenceExact(cfg, w.s, op);
    case Reload(_, _) =>
    case Crash(_, _, _, restart) =>
      var down := CrashedState(cfg, w.s, ev);
      if restart.Import? {
        ImportEffect(down, restart.present, restart.entry);
      } else {
        RestartEstablishesInv(cfg, down, map[], restart);
      }
  }

  /** Blocked implies silenced, exactly: in every state of a run if and only if no operation of
      the run takes a target away while a second name of its network stays blocked. A crash at
      any step, with any start behind it, never breaks it. */
  lemma {:induction false} SilencedExactlyOverRuns(cfg: Config, w: World, events: seq<Event>, n: nat)
    requires BlockedAreSilenced(w.s) && PossibleRun(cfg, w, events) && n <= |events|
    ensures (forall k :: 0 <= k <= n ==> BlockedAreSilenced(Run(cfg, w, events[..k]).s))
       <==> (forall k :: 0 <= k < n ==> EventSpares(Run(cfg, w, events[..k]).s, events[k]))
  {
    hide BlockedAreSilenced, Run, Next, Possible, EventSpares;
    if n == 0 {
      NoEvents(cfg, w);
      assert events[..0] == [];
    } else {
      SilencedExactlyOverRuns(cfg, w, events, n - 1);
      RunNext(cfg, w, events, n - 1);
      var mid := Run(cfg, w, events[..n - 1]);
      if BlockedAreSilenced(mid.s) { EventSilenceExact(cfg, mid, events[n - 1]); }
    }
  }

  // ---- runs without second names ----

  predicate Plain(t: Target) { Normalize(t) == t && !(t.Cidr? && t.len == 32) }

  ghost predicate PlainKeys(s: Sys) {
    (forall t <- s.mem :: Plain(t)) && (forall t <- s.store :: Plain(t))
  }

  /** The operation names no target with an explicit "/32". */
  ghost predicate SingleNames(op: Op) {
    match op
    case Block(req, _, _) => req.target.Some? ==> !(req.target.value.Cidr? && req.target.value.len == 32)
    case Unblock(target, _, _, _) => target.Some? ==> !(target.value.Cidr? && target.value.len == 32)
    case Import(present, _, _) => forall t <- present :: Plain(t)
    case _ => true
  }

  ghost predicate EventSingleNames(ev: Event) {
    match ev
    case Serve(op) => SingleNames(op)
    case Reload(_, _) => true
    case Crash(op, _, _, restart) => SingleNames(op) && SingleNames(restart)
  }

  predicate PlainStep(step: Step) {
    match step
    case Insert(t, _) => Plain(t)
    case Replace(t, _) => Plain(t)
    case SaveBan(t, _, _) => Plain(t)
    case _ => true
  }

  lemma {:induction false} PlainPreserved(s: Sys, steps: seq<Step>)
    requires PlainKeys(s) && forall step <- steps :: PlainStep(step)
    ensures PlainKeys(ApplyAll(s, steps))
  {
    if steps != [] {
      assert PlainStep(steps[|steps| - 1]);
      PlainPreserved(s, steps[..|steps| - 1]);
    }
  }

  lemma {:induction false} LoadPlain(s: Sys, rows: map<Target, Row>, order: seq<Target>)
    requires forall t <- rows :: Plain(t)
    ensures forall step <- LoadSteps(s, rows, order) :: PlainStep(step)
  {
    if order != [] { LoadPlain(s, rows, order[..|order| - 1]); }
  }

  lemma {:induction false} ImportPlain(s: Sys, present: seq<Target>, e: Entry)
    requires forall t <- present :: Plain(t)
    ensures forall step <- ImportSteps(s, present, e) :: PlainStep(step)
  {
    if present != [] {
      assert forall t <- present[..|present| - 1] :: t in present;
      ImportPlain(s, present[..|present| - 1], e);
    }
  }

  lemma OperationPlain(cfg: Config, s: Sys, op: Op)
    requires PlainKeys(s) && Allowed(s, op) && SingleNames(op)
    ensures forall step <- StepsOf(cfg, s, op) :: PlainStep(step)
  {
    hide Plain, Normalize, ApplyAll, ExpireSteps, ReapplySteps, RestartSteps, BlockSteps, ImportSteps;
    match op
    case Block(req, clk, io) =>
      if req.target.Some? { NormalIsPlain(req.target.value); }
      BlockPlain(cfg, s, req, clk, io);
    case Unblock(_, _, _, _) =>
    case Expire(order, now, io) => ExpirePlain(cfg, s, order, now, io);
    case Reconcile(order, _, io) => ReapplyOnlyBlocks(cfg, s, order, io);
    case Prune(_, _) =>
    case Import(present, entry, _) => ImportPlain(Apply(s, Reset), present, entry);
    case Restart(rowOrder, now, order, _, io) => RestartPlain(cfg, s, rowOrder, now, order, io);
  }

  lemma ExpirePlain(cfg: Config, s: Sys, order: seq<Target>, now: Nanos, io: Target -> ExpireIo)
    ensures forall step <- ExpireSteps(cfg, s, order, now, io) :: PlainStep(step)
  {
    CleanupTargets(cfg, Expired(s.mem, order, now), io);
  }

  lemma RestartPlain(cfg: Config, s: Sys, rowOrder: seq<Target>, now: Nanos, order: seq<Target>, io: ReconcileIo)
    requires PlainKeys(s)
    ensures forall step <- RestartSteps(cfg, s, rowOrder, now, order, io) :: PlainStep(step)
  {
    hide Plain, ApplyAll, LoadSteps, ReapplySteps;
    var empty := Apply(s, Reset);
    var load := LoadSteps(empty, ActiveRows(s.store, now), rowOrder);
    LoadPlain(empty, ActiveRows(s.store, now), rowOrder);
    ReapplyOnlyBlocks(cfg, ApplyAll(empty, load), order, io);
  }

  lemma BlockPlain(cfg: Config, s: Sys, req: Request, clk: Clock, io: BlockIo)
    requires req.target.Some? ==> Plain(Normalize(req.target.value))
    ensures forall step <- BlockSteps(cfg, s, req, clk, io) :: PlainStep(step)
  {
    match Decide(cfg, s, req, clk)
    case Extend(prev) =>
      var u := Normalize(req.target.value);
      assert forall step <- ExtendRuleSteps(cfg, u, req, clk, io, prev) :: PlainStep(step);
      assert forall step <- RestoreSteps(u, prev, io) :: PlainStep(step);
    case _ =>
  }

  /** Plain targets have different silence keys. */
  lemma PlainSilenceKeys(a: Target, b: Target)
    requires Plain(a) && Plain(b) && NetOf(a) == NetOf(b)
    ensures a == b
  {
  }

  lemma PlainSpares(s: Sys, op: Op)
    requires PlainKeys(s) && SingleNames(op)
    ensures SparesNamesakes(s, op)
  {
    hide NetOf, Plain;
    forall t, u | Plain(t) && Plain(u) && NetOf(t) == NetOf(u) ensures t == u { PlainSilenceKeys(t, u); }
    if op.Unblock? && op.target.Some? { NormalIsPlain(op.target.value); }
  }

  lemma NormalIsPlain(t: Target)
    requires !(t.Cidr? && t.len == 32)
    ensures Plain(Normalize(t))
  {
    NormalizeSound(t);
  }

  lemma EventKeepsPlain(cfg: Config, w: World, ev: Event)
    requires Possible(cfg, w, ev) && PlainKeys(w.s) && EventSingleNames(ev)
    ensures PlainKeys(Next(cfg, w, ev).s)
  {
    hide ApplyAll;
    match ev
    case Serve(op) =>
      OperationPlain(cfg, w.s, op);
      PlainPreserved(w.s, StepsOf(cfg, w.s, op));
    case Reload(_, _) =>
    case Crash(op, k, _, restart) =>
      var steps := StepsOf(cfg, w.s, op);
      var down := CrashedState(cfg, w.s, ev);
      OperationPlain(cfg, w.s, op);
      assert forall step <- steps[..k] :: step in steps;
      PlainPreserved(w.s, steps[..k]);
      assert PlainKeys(down);
      OperationPlain(cfg, down, restart);
      PlainPreserved(down, StepsOf(cfg, down, restart));
  }

  /** Without explicit "/32" targets everything blocked is silenced, in every state of every run. */
  lemma {:induction false} SingleNamesStaySilenced(cfg: Config, w: World, events: seq<Event>)
    requires BlockedAreSilenced(w.s) && PlainKeys(w.s) && PossibleRun(cfg, w, events)
    requires forall ev <- events :: EventSingleNames(ev)
    ensures BlockedAreSilenced(Run(cfg, w, events).s) && PlainKeys(Run(cfg, w, events).s)
  {
    if events != [] {
      var init, ev := events[..|events| - 1], events[|events| - 1];
      assert forall e <- init :: e in events;
      PossibleInit(cfg, w, events);
      SingleNamesStaySilenced(cfg, w, init);
      hide BlockedAreSilenced, PlainKeys, Next, Possible, SparesNamesakes;
      var mid := Run(cfg, w, init);
      EventKeepsPlain(cfg, mid, ev);
      EventSilenceExact(cfg, mid, ev);
      if ev.Serve? { PlainSpares(mid.s, ev.op); }
    }
  }

  // ---- what the detection engine sees ----

  /** The engine's whitelist, with the silenced set of the bans. */
  function EngineView(operator: seq<Net>, accounts: set<string>, s: Sys): Whitelists.State {
    Whitelists.State(operator, accounts, s.silenced)
  }

  /** While everything blocked is silenced, the engine drops every event of every banned address,
      whatever the operator configured. */
  lemma BannedAreDropped(s: Sys, operator: seq<Net>, accounts: set<string>, t: Target, ip: Addr,
                         account: Option<string>)
    requires BlockedAreSilenced(s) && t in s.mem && Covers(t, ip)
    ensures EngineView(operator, accounts, s).Dropped(Some(ip), account)
  {
    NormalizeSound(t);
    assert NetOf(t) in s.silenced && Contains(NetOf(t), ip);
  }

  /** From ban to engine, over every run without second names: whatever is reported blocked in any
      state of the run has no event dispatched. */
  lemma BannedAreDroppedOverRuns(cfg: Config, w: World, events: seq<Event>, operator: seq<Net>, accounts: set<string>,
                                 ip: Addr, account: Option<string>)
    requires BlockedAreSilenced(w.s) && PlainKeys(w.s) && Inv(w.s, w.promises, w.now) && PossibleRun(cfg, w, events)
    requires forall ev <- events :: EventSingleNames(ev)
    ensures var s := Run(cfg, w, events).s;
            forall k, now :: BlockedBy(s, Host(ip), now, k) ==>
              EngineView(operator, accounts, s).Dropped(Some(ip), account)
  {
    hide Run, PossibleRun;
    SingleNamesStaySilenced(cfg, w, events);
    RunsAreSafe(cfg, w, events);
    var s := Run(cfg, w, events).s;
    forall k, now | BlockedBy(s, Host(ip), now, k)
      ensures EngineView(operator, accounts, s).Dropped(Some(ip), account)
    {
      NormalizeSound(k);
      BannedAreDropped(s, operator, accounts, k, ip, account);
    }
  }
}
