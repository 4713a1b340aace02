/** How long the firewall backs the bans: blocked implies enforced, with the exact condition for
    every operation and over every run. */
module BanEnforcement {
  import opened Ipv4
  import opened Bans
  import opened BanEffects
  import opened BanOutcomes
  import opened BanSafety
  import opened Time

  ghost predicate AllEnforced(s: Sys) { forall t <- s.mem :: Enforced(s, t) }

  // ---- when an operation leaves every ban backed ----

  /** A pass leaves the ban backed: it really added the rule, or found one that lasts as long. */
  ghost predicate PassBacks(s: Sys, t: Target, io: ReconcileIo)
    requires t in s.mem
  {
    (io.setupOk && io.listOk && Restored(s, t, io)) || Backed(s, t, s.mem[t].expiry)
  }

  /** Memory as a restart loads it. */
  function LoadedMem(rows: map<Target, Row>): map<Target, Entry> {
    map t | t in rows :: Entry(rows[t].expiresAt * SECOND, rows[t].moduleName)
  }

  ghost predicate StartBacks(s: Sys, op: Op)
    requires op.Restart? || op.Import?
  {
    match op
    case Restart(_, now, _, _, io) =>
      var up := s.(mem := LoadedMem(ActiveRows(s.store, now)));
      forall t <- up.mem :: PassBacks(up, t, io)
    case Import(present, e, _) => forall t <- present :: Backed(s, t, e.expiry)
  }

  /** Block requests and starts are the operations that may fail to. */
  ghost predicate OpBacks(cfg: Config, s: Sys, op: Op) {
    && (op.Block? ==> RuleBacks(cfg, s, op.req, op.clk, op.io))
    && (op.Restart? || op.Import? ==> StartBacks(s, op))
  }

  /** The clock of a pass never steps back. */
  ghost predicate PassInOrder(op: Op) {
    op.Reconcile? || op.Restart? ==> PassTimes(op.recon)
  }

  // ---- reconciliation ----

  lemma ReconciledExactly(cfg: Config, up: Sys, end: Sys, io: ReconcileIo)
    requires PassTimes(io) && end == up.(rules := end.rules)
    requires if io.setupOk && io.listOk then Reconciled(cfg, up, up.mem.Keys, io, end.rules) else end == up
    ensures AllEnforced(end) <==> forall t <- up.mem :: PassBacks(up, t, io)
  {
    forall t | t in up.mem ensures Enforced(end, t) <==> PassBacks(up, t, io) {
      if io.setupOk && io.listOk && Restored(up, t, io) { ReappliedOutlasts(cfg, up, t, io); }
    }
    assert forall t <- up.mem :: t in end.mem;
  }

  /** One pass, from arbitrary firewall contents, whatever its commands report and do: afterwards
      every ban has a rule that lasts as long if and only if it was really re-applied or had one. */
  lemma ReconcileEnforcedExactly(cfg: Config, s: Sys, order: seq<Target>, io: ReconcileIo)
    requires Enumerates(order, s.mem.Keys) && PassTimes(io)
    ensures AllEnforced(ApplyAll(s, ReconcileSteps(cfg, s, order, io)))
       <==> forall t <- s.mem :: PassBacks(s, t, io)
  {
    hide ApplyAll, ReconcileSteps;
    ReconcileEffect(cfg, s, order, io);
    ReconciledExactly(cfg, s, ApplyAll(s, ReconcileSteps(cfg, s, order, io)), io);
  }

  /** When a pass repairs a ban: if its command for the ban works, the ban is backed afterwards
      exactly when it was before, or no rule of its addresses was listed. A rule that ends before
      the ban is repaired by the first such pass behind the end of the rule. */
  lemma PassRepairsExactly(cfg: Config, s: Sys, order: seq<Target>, io: ReconcileIo, t: Target)
    requires Enumerates(order, s.mem.Keys) && PassTimes(io) && io.setupOk && io.listOk
    requires t in s.mem && io.recheck(t) < s.mem[t].expiry && io.block(t).effect
    ensures Enforced(ApplyAll(s, ReconcileSteps(cfg, s, order, io)), t)
        <==> Backed(s, t, s.mem[t].expiry) || !Present(s.rules, t, io.listAt)
  {
    hide ApplyAll, ReconcileSteps, FwKey;
    ReconcileEffect(cfg, s, order, io);
    assert Restored(s, t, io) <==> !Present(s.rules, t, io.listAt);
    if Restored(s, t, io) { ReappliedOutlasts(cfg, s, t, io); }
  }

  lemma ReconcileKeepsEnforced(cfg: Config, s: Sys, order: seq<Target>, io: ReconcileIo)
    requires Enumerates(order, s.mem.Keys) && PassTimes(io) && AllEnforced(s)
    ensures AllEnforced(ApplyAll(s, ReconcileSteps(cfg, s, order, io)))
  {
    hide ApplyAll, ReconcileSteps;
    ReconcileEnforcedExactly(cfg, s, order, io);
    forall t | t in s.mem ensures PassBacks(s, t, io) { assert Enforced(s, t); }
  }

  // ---- starts ----

  lemma PassBacksSame(a: Sys, b: Sys, io: ReconcileIo)
    requires a.mem == b.mem && a.rules == b.rules
    ensures (forall t <- a.mem :: PassBacks(a, t, io))
       <==> (forall t <- b.mem :: PassBacks(b, t, io))
  {
    assert forall t <- a.mem :: PassBacks(a, t, io) == PassBacks(b, t, io);
  }

  lemma StartEnforcedExactly(cfg: Config, s: Sys, op: Op)
    requires (op.Restart? || op.Import?) && Allowed(s, op) && PassInOrder(op)
    ensures AllEnforced(ApplyAll(s, StepsOf(cfg, s, op)))
       <==> StartBacks(s, op)
  {
    hide ApplyAll, RestartSteps, ImportStartSteps;
    match op
    case Restart(rowOrder, now, order, _, io) =>
      var up := RestartEffect(cfg, s, rowOrder, now, order, io);
      var rows := ActiveRows(s.store, now);
      assert up.mem == LoadedMem(rows);
      ReconciledExactly(cfg, up, ApplyAll(s, StepsOf(cfg, s, op)), io);
      PassBacksSame(up, s.(mem := LoadedMem(rows)), io);
    case Import(present, e, _) =>
      ImportEffect(s, present, e);
      var end := ApplyAll(s, StepsOf(cfg, s, op));
      forall t | t in present ensures Enforced(end, t) <==> Backed(s, t, e.expiry) { assert t in end.mem; }
      assert forall t <- end.mem :: t in present;
  }

  // ---- the other operations ----

  lemma BlockKeepsEnforced(cfg: Config, s: Sys, op: Op)
    requires op.Block? && Allowed(s, op) && AllEnforced(s)
    ensures AllEnforced(ApplyAll(s, StepsOf(cfg, s, op)))
       <==> RuleBacks(cfg, s, op.req, op.clk, op.io)
  {
    hide ApplyAll, RuleBacks, BlockSteps;
    var end := ApplyAll(s, StepsOf(cfg, s, op));
    var req, clk, io := op.req, op.clk, op.io;
    if req.target.None? {
      UnreadableBacks(cfg, s, req, clk, io);
    } else {
      var t := Normalize(req.target.value);
      assert Enforced(s, t);
      BlockEnforcedExactly(cfg, s, req, clk, io);
      assert AllEnforced(end) ==> Enforced(end, t);
    }
    forall u | u in end.mem && (req.target.None? || u != Normalize(req.target.value)) ensures Enforced(end, u) {
      OthersUntouched(cfg, s, req, clk, io, u);
      assert FactsOf(end, u) == FactsOf(s, u);
      assert u in s.mem && Enforced(s, u);
    }
  }

  lemma UnreadableBacks(cfg: Config, s: Sys, req: Request, clk: Clock, io: BlockIo)
    requires req.target.None?
    ensures RuleBacks(cfg, s, req, clk, io)
  {
  }

  lemma ExpireKeepsEnforced(cfg: Config, s: Sys, order: seq<Target>, now: Nanos, io: Target -> ExpireIo)
    requires Enumerates(order, s.mem.Keys) && AllEnforced(s)
    ensures AllEnforced(ApplyAll(s, ExpireSteps(cfg, s, order, now, io)))
  {
    hide ApplyAll;
    var end := ApplyAll(s, ExpireSteps(cfg, s, order, now, io));
    ExpireMaps(cfg, s, order, now, io);
    ExpiredExact(s.mem, order, now);
    CleanupTargets(cfg, Expired(s.mem, order, now), io);
    forall t | t in end.mem ensures Enforced(end, t) {
      assert Enforced(s, t);
      RuleKept(s, ExpireSteps(cfg, s, order, now, io), t);
    }
  }

  lemma StepEnforcedExactly(cfg: Config, s: Sys, op: Op)
    requires AllEnforced(s) && Allowed(s, op) && PassInOrder(op)
    ensures AllEnforced(ApplyAll(s, StepsOf(cfg, s, op)))
       <==> OpBacks(cfg, s, op)
  {
    hide RuleBacks, StartBacks;
    match op
    case Block(_, _, _) => BlockKeepsEnforced(cfg, s, op);
    case Unblock(target, _, deleteOk, unblock) =>
      if target.Some? {
        UnblockEffect(s, Normalize(target.value), deleteOk, unblock);
        UnblockedStayEnforced(s, Normalize(target.value), ApplyAll(s, StepsOf(cfg, s, op)));
      }
    case Expire(order, now, io) => ExpireKeepsEnforced(cfg, s, order, now, io);
    case Reconcile(order, _, io) => ReconcileKeepsEnforced(cfg, s, order, io);
    case Prune(now, ok) =>
      ApplyAllOne(s, PruneBans(now, ok));
      SameRulesStayEnforced(s, ApplyAll(s, [PruneBans(now, ok)]));
    case Import(_, _, _) => StartEnforcedExactly(cfg, s, op);
    case Restart(_, _, _, _, _) => StartEnforcedExactly(cfg, s, op);
  }

  lemma SameRulesStayEnforced(s: Sys, end: Sys)
    requires AllEnforced(s) && end.mem == s.mem && end.rules == s.rules
    ensures AllEnforced(end)
  {
    forall t | t in end.mem ensures Enforced(end, t) { assert Enforced(s, t); }
  }

  lemma UnblockedStayEnforced(s: Sys, t: Target, end: Sys)
    requires AllEnforced(s) && end.mem == s.mem - {t} && (end.rules == s.rules || end.rules == s.rules - {t})
    ensures AllEnforced(end)
  {
    forall u | u in end.mem ensures Enforced(end, u) { assert Enforced(s, u); }
  }

  // ---- runs ----

  /** The event leaves every ban backed: an operation as above, a change of the firewall from
      outside that keeps the rules the bans need, a crash whose restart finds or re-applies them. */
  ghost predicate EventBacks(cfg: Config, w: World, ev: Event) {
    match ev
    case Serve(op) => OpBacks(cfg, w.s, op)
    case Reload(rules, _) => AllEnforced(w.s.(rules := rules))
    case Crash(op, k, _, restart) =>
      && k <= |StepsOf(cfg, w.s, op)| && (restart.Restart? || restart.Import?)
      && StartBacks(CrashedState(cfg, w.s, ev), restart)
  }

  ghost predicate EventInOrder(ev: Event) {
    match ev
    case Serve(op) => PassInOrder(op)
    case Reload(_, _) => true
    case Crash(_, _, _, restart) => PassInOrder(restart)
  }

  lemma EventEnforcedExactly(cfg: Config, w: World, ev: Event)
    requires AllEnforced(w.s) && Possible(cfg, w, ev) && EventInOrder(ev)
    ensures AllEnforced(Next(cfg, w, ev).s)
       <==> EventBacks(cfg, w, ev)
  {
    hide ApplyAll, OpBacks, StartBacks, AllEnforced;
    match ev
    case Serve(op) => StepEnforcedExactly(cfg, w.s, op);
    case Reload(_, _) =>
    case Crash(_, _, _, restart) => StartEnforcedExactly(cfg, CrashedState(cfg, w.s, ev), restart);
  }

  /** Blocked implies enforced, exactly: over every run, with crashes, starts and changes of the
      firewall from outside, and whatever the commands report and do, every ban has in every state
      a rule that ends no earlier if and only if every event of the run leaves it so. */
  lemma {:induction false} EnforcedExactlyOverRuns(cfg: Config, w: World, events: seq<Event>, n: nat)
    requires AllEnforced(w.s) && PossibleRun(cfg, w, events) && n <= |events|
    requires forall ev <- events :: EventInOrder(ev)
    ensures (forall k :: 0 <= k <= n ==> AllEnforced(Run(cfg, w, events[..k]).s))
       <==> (forall k :: 0 <= k < n ==> EventBacks(cfg, Run(cfg, w, events[..k]), events[k]))
  {
    hide AllEnforced, Run, Next, Possible, EventBacks, PossibleRun;
    if n == 0 {
      NoEvents(cfg, w);
      assert events[..0] == [];
    } else {
      EnforcedExactlyOverRuns(cfg, w, events, n - 1);
      RunNext(cfg, w, events, n - 1);
      var mid := Run(cfg, w, events[..n - 1]);
      assert events[n - 1] in events;
      if AllEnforced(mid.s) { EventEnforcedExactly(cfg, mid, events[n - 1]); }
    }
  }

  /** While that holds, every live ban has an active rule. */
  lemma BlockedImpliesEnforced(cfg: Config, w: World, events: seq<Event>)
    requires AllEnforced(w.s) && PossibleRun(cfg, w, events)
    requires forall ev <- events :: EventInOrder(ev)
    requires forall k :: 0 <= k < |events| ==> EventBacks(cfg, Run(cfg, w, events[..k]), events[k])
    ensures var s := Run(cfg, w, events).s;
            forall t, now :: LiveIn(s.mem, t, now) ==> RuleActive(s.rules, t, now)
  {
    hide Run, EventBacks, PossibleRun;
    EnforcedExactlyOverRuns(cfg, w, events, |events|);
    assert events[..|events|] == events;
    var s := Run(cfg, w, events).s;
    assert AllEnforced(s);
    forall t, now | LiveIn(s.mem, t, now) ensures RuleActive(s.rules, t, now) {
      assert Enforced(s, t);
    }
  }
}
